/** The 64-bit linear feedback shift register behind the HPCC RandomAccess stream of sources/gups/gups.c. Its states
    are polynomials modulo x^64 + x^2 + x + 1, and a step multiplies by x. The constant PERIOD of the program is
    shown to be a period of the stream. */
module Lfsr {
  import opened Bits
  import opened Iteration

  type Word = w: seq<bool> | |w| == 64 witness seq(64, _ => false)

  const PERIOD: nat := 1317624576693539401

  const ZERO: Word := Repeat(64, false)
  const ONE: Word := Unit(0)
  // 0x7
  const POLY: Word := [true, true, true] + Repeat(61, false)

  function Unit(i: nat): Word
    requires i < 64
  {
    Repeat(i, false) + [true] + Repeat(63 - i, false)
  }

  function Shl(x: Word): Word {
    [false] + x[..63]
  }

  // One step of the register: (x << 1) ^ ((int64_t) x < 0 ? POLY : 0)
  function Next(x: Word): Word {
    if x[63] then Xor(Shl(x), POLY) else Shl(x)
  }

  // The value n steps after x
  function Steps(n: nat, x: Word): Word {
    if n == 0 then x else Next(Steps(n - 1, x))
  }

  // ---------- linearity ----------

  lemma XorZero(a: Word)
    ensures Xor(a, ZERO) == a && Xor(ZERO, a) == a && Xor(a, a) == ZERO
  {
  }

  lemma NextLinear(a: Word, b: Word)
    ensures Next(Xor(a, b)) == Xor(Next(a), Next(b))
  {
    assert Shl(Xor(a, b)) == Xor(Shl(a), Shl(b));
  }

  lemma {:induction false} StepsLinear(n: nat, a: Word, b: Word)
    ensures Steps(n, Xor(a, b)) == Xor(Steps(n, a), Steps(n, b))
  {
    if n > 0 {
      StepsLinear(n - 1, a, b);
      NextLinear(Steps(n - 1, a), Steps(n - 1, b));
    }
  }

  lemma {:induction false} StepsAdd(m: nat, n: nat, x: Word)
    ensures Steps(m, Steps(n, x)) == Steps(m + n, x)
  {
    if m > 0 { StepsAdd(m - 1, n, x); }
  }

  lemma StepsSucc(n: nat)
    ensures Steps(n + 1, ONE) == Next(Steps(n, ONE))
  {
  }

  lemma {:induction false} StepsOfZero(n: nat)
    ensures Steps(n, ZERO) == ZERO
  {
    if n > 0 {
      StepsOfZero(n - 1);
      assert Shl(ZERO) == ZERO;
    }
  }

  lemma Swap(a: Word, b: Word, c: Word, d: Word)
    ensures Xor(Xor(a, b), Xor(c, d)) == Xor(Xor(a, c), Xor(b, d))
  {
  }

  // ---------- the polynomial ----------

  lemma {:induction false} StepsUnit(k: nat)
    requires k < 64
    ensures Steps(k, ONE) == Unit(k)
  {
    if k > 0 {
      StepsUnit(k - 1);
      assert Shl(Unit(k - 1)) == Unit(k);
    }
  }

  // x^64 = x^2 + x + 1, hence x^(64+k) = x^(k+2) + x^(k+1) + x^k
  lemma Reduce(k: nat)
    ensures Steps(k + 64, ONE) == Xor(Xor(Steps(k, ONE), Steps(k + 1, ONE)), Steps(k + 2, ONE))
  {
    StepsUnit(63);
    StepsUnit(0);
    StepsUnit(1);
    StepsUnit(2);
    assert Shl(Unit(63)) == ZERO;
    XorZero(POLY);
    assert POLY == Xor(Xor(Unit(0), Unit(1)), Unit(2));
    StepsAdd(k, 64, ONE);
    StepsLinear(k, Xor(Unit(0), Unit(1)), Unit(2));
    StepsLinear(k, Unit(0), Unit(1));
    StepsAdd(k, 1, ONE);
    StepsAdd(k, 2, ONE);
  }

  // x^128 = x^4 + x^2 + 1: squaring the polynomial
  lemma ReduceSquare(k: nat)
    ensures Steps(k + 128, ONE) == Xor(Xor(Steps(k, ONE), Steps(k + 2, ONE)), Steps(k + 4, ONE))
  {
    Reduce(k + 64);
    Reduce(k);
    Reduce(k + 1);
    Reduce(k + 2);
    Fold(Steps(k, ONE), Steps(k + 1, ONE), Steps(k + 2, ONE), Steps(k + 3, ONE), Steps(k + 4, ONE));
  }

  lemma Fold(a: Word, b: Word, c: Word, d: Word, e: Word)
    ensures Xor(Xor(Xor(Xor(a, b), c), Xor(Xor(b, c), d)), Xor(Xor(c, d), e)) == Xor(Xor(a, c), e)
  {
  }

  // ---------- the period ----------

  // v up to bit n
  function Prefix(v: Word, n: nat): Word
    requires n <= 64
  {
    v[..n] + Repeat(64 - n, false)
  }

  // x^64 = x^2 + x + 1 as an equation between maps on words
  lemma {:induction false} ReduceWord(v: Word, n: nat, k: nat)
    requires n <= 64 == k
    ensures Steps(k, Prefix(v, n)) == Xor(Xor(Prefix(v, n), Next(Prefix(v, n))), Next(Next(Prefix(v, n))))
  {
    if n == 0 {
      assert Prefix(v, 0) == ZERO;
      StepsOfZero(k);
      StepsOfZero(2);
      XorZero(ZERO);
      assert Steps(2, ZERO) == Next(Next(ZERO));
      assert Shl(ZERO) == ZERO;
    } else {
      ReduceWord(v, n - 1, k);
      if v[n - 1] {
        assert Prefix(v, n) == Xor(Prefix(v, n - 1), Unit(n - 1));
        ReduceUnit(n - 1, k);
        ReduceSum(Prefix(v, n - 1), Unit(n - 1), k);
      } else {
        assert Prefix(v, n) == Prefix(v, n - 1);
      }
    }
  }

  lemma ReduceUnit(j: nat, k: nat)
    requires j < 64 == k
    ensures Steps(k, Unit(j)) == Xor(Xor(Unit(j), Next(Unit(j))), Next(Next(Unit(j))))
  {
    StepsUnit(j);
    Reduce(j);
    StepsAdd(k, j, ONE);
    StepsSucc(j);
    StepsSucc(j + 1);
  }

  lemma ReduceSum(a: Word, b: Word, k: nat)
    requires Steps(k, a) == Xor(Xor(a, Next(a)), Next(Next(a)))
    requires Steps(k, b) == Xor(Xor(b, Next(b)), Next(Next(b)))
    ensures var c := Xor(a, b); Steps(k, c) == Xor(Xor(c, Next(c)), Next(Next(c)))
  {
    StepsLinear(k, a, b);
    NextLinear(a, b);
    NextLinear(Next(a), Next(b));
    Swap(a, b, Next(a), Next(b));
    Swap(Xor(a, Next(a)), Xor(b, Next(b)), Next(Next(a)), Next(Next(b)));
  }

  lemma ReduceAll(v: Word, k: nat)
    requires k == 64
    ensures Steps(k, v) == Xor(Xor(v, Steps(1, v)), Steps(2, v))
  {
    assert Prefix(v, 64) == v;
    ReduceWord(v, 64, k);
    assert Steps(1, v) == Next(v) && Steps(2, v) == Next(Next(v));
  }

  // x^64n = x^2n + x^n + 1 for every power of two n
  lemma {:induction false} ReducePower(v: Word, n: nat, i: nat)
    requires n == Pow2(i)
    ensures Steps(64 * n, v) == Xor(Xor(v, Steps(n, v)), Steps(2 * n, v))
    decreases i
  {
    if i == 0 {
      ReduceAll(v, 64 * n);
    } else {
      var m := Pow2(i - 1);
      var b, c := Steps(m, v), Steps(2 * m, v);
      ReducePower(v, m, i - 1);
      ReducePower(b, m, i - 1);
      ReducePower(c, m, i - 1);
      StepsAdd(64 * m, 64 * m, v);
      StepsLinear(64 * m, Xor(v, b), c);
      StepsLinear(64 * m, v, b);
      StepsAdd(m, m, v);
      StepsAdd(m, 2 * m, v);
      StepsAdd(2 * m, m, v);
      StepsAdd(2 * m, 2 * m, v);
      Fold(v, b, c, Steps(3 * m, v), Steps(4 * m, v));
    }
  }

  // (x + 1)^(2^i), which is x^(2^i) + 1
  function D(i: nat, v: Word): Word {
    Xor(v, Steps(Pow2(i), v))
  }

  lemma D6(i: nat, v: Word)
    ensures D(i + 6, v) == Xor(D(i + 1, v), D(i, v))
  {
    var n := Pow2(i);
    assert Pow2(i + 1) == 2 * n && Pow2(i + 2) == 4 * n && Pow2(i + 4) == 16 * n && Pow2(i + 6) == 64 * n;
    ReducePower(v, n, i);
    assert Xor(v, Xor(Xor(v, Steps(n, v)), Steps(2 * n, v))) == Xor(Xor(v, Steps(2 * n, v)), Xor(v, Steps(n, v)));
  }

  lemma Cancel(a: Word, b: Word, c: Word)
    ensures Xor(Xor(c, b), Xor(b, a)) == Xor(c, a)
  {
  }

  lemma D12(i: nat, v: Word)
    ensures D(i + 12, v) == Xor(D(i + 2, v), D(i, v))
  {
    D6(i + 6, v);
    D6(i + 1, v);
    D6(i, v);
    Cancel(D(i, v), D(i + 1, v), D(i + 2, v));
  }

  lemma D24(i: nat, v: Word)
    ensures D(i + 24, v) == Xor(D(i + 4, v), D(i, v))
  {
    D12(i + 12, v);
    D12(i + 2, v);
    D12(i, v);
    Cancel(D(i, v), D(i + 2, v), D(i + 4, v));
  }

  lemma D48(i: nat, v: Word)
    ensures D(i + 48, v) == Xor(D(i + 8, v), D(i, v))
  {
    D24(i + 24, v);
    D24(i + 4, v);
    D24(i, v);
    Cancel(D(i, v), D(i + 4, v), D(i + 8, v));
  }

  // x^(2^63) = x
  lemma D63(i: nat, v: Word)
    ensures D(i + 63, v) == D(i, v)
  {
    D48(i + 15, v);
    D12(i + 11, v);
    D12(i + 1, v);
    D6(i + 5, v);
    D6(i, v);
    D12(i + 3, v);
    Cycle(D(i, v), D(i + 1, v), D(i + 3, v), D(i + 5, v));
  }

  lemma Cycle(a: Word, b: Word, d: Word, f: Word)
    ensures Xor(Xor(Xor(d, b), Xor(Xor(b, a), f)), Xor(f, d)) == a
  {
  }

  // Multiplication by x + 1
  function TimesY(v: Word): Word {
    Xor(v, Next(v))
  }

  lemma {:induction false} StepsIter(n: nat, v: Word)
    ensures Iter(Next, n, v) == Steps(n, v)
  {
    if n > 0 { StepsIter(n - 1, v); }
  }

  lemma StepsOne(v: Word)
    ensures Steps(1, v) == Next(v) && Steps(2, v) == Next(Next(v))
  {
    assert Steps(0, v) == v;
  }

  lemma DZero(v: Word)
    ensures D(0, v) == TimesY(v) && D(1, v) == Xor(v, Next(Next(v)))
  {
    StepsOne(v);
  }

  lemma DTwice(i: nat, v: Word)
    ensures D(i, D(i, v)) == D(i + 1, v)
  {
    var m := Pow2(i);
    StepsLinear(m, v, Steps(m, v));
    StepsAdd(m, m, v);
    Cancel(Steps(2 * m, v), Steps(m, v), v);
  }

  lemma {:induction false} IterD(i: nat, v: Word)
    ensures Iter(TimesY, Pow2(i), v) == D(i, v)
  {
    if i == 0 {
      DZero(v);
      IterOne(TimesY, v);
    } else {
      var m := Pow2(i - 1);
      IterD(i - 1, v);
      IterD(i - 1, D(i - 1, v));
      IterAdd(TimesY, m, m, v);
      DTwice(i - 1, v);
    }
  }

  // (x + 1)^64 = x (x + 1)
  lemma Iter64(v: Word, i: nat)
    requires i == 6
    ensures Iter(TimesY, Pow2(i), v) == Next(TimesY(v))
  {
    IterD(i, v);
    D6(0, v);
    DZero(v);
    NextLinear(v, Next(v));
    Cancel(Next(v), v, Next(Next(v)));
  }

  // (x + 1)^(2^63) = x + 1
  lemma Iter63(v: Word, i: nat)
    requires i == 63
    ensures Iter(TimesY, Pow2(i), v) == TimesY(v)
  {
    IterD(i, v);
    D63(0, v);
    DZero(v);
  }

  lemma NextTimesY(v: Word)
    ensures Next(TimesY(v)) == TimesY(Next(v))
  {
    NextLinear(v, Next(v));
  }

  // x^p (x + 1) = x + 1
  lemma PeriodTimesY(p: nat, i: nat, j: nat, v: Word)
    requires p > 0 && 7 * p + 1 == Pow2(i) && i == 63 && j == 6 && Pow2(j) == 64
    ensures Steps(p, TimesY(v)) == TimesY(v)
  {
    forall w: Word ensures Next(TimesY(w)) == TimesY(Next(w)) { NextTimesY(w); }
    forall w: Word ensures Iter(TimesY, Pow2(j), w) == Next(TimesY(w)) { Iter64(w, j); }
    forall w: Word ensures Iter(TimesY, Pow2(i), w) == TimesY(w) { Iter63(w, i); }
    PowerFixes(Next, TimesY, p, Pow2(j), Pow2(i), v);
    StepsIter(p, TimesY(v));
  }

  lemma StepsTimesY(n: nat, v: Word)
    ensures Steps(n, TimesY(v)) == TimesY(Steps(n, v))
  {
    StepsLinear(n, v, Next(v));
    StepsOne(v);
    StepsOne(Steps(n, v));
    StepsAdd(n, 1, v);
    StepsAdd(1, n, v);
  }

  // ---------- parity ----------

  function Odd(s: seq<bool>): bool {
    s != [] && s[0] != Odd(s[1..])
  }

  lemma {:induction false} OddXor(a: seq<bool>, b: seq<bool>)
    requires |a| == |b|
    ensures Odd(Xor(a, b)) == (Odd(a) != Odd(b))
  {
    if a != [] {
      OddXor(a[1..], b[1..]);
      assert Xor(a, b)[1..] == Xor(a[1..], b[1..]);
    }
  }

  lemma {:induction false} OddLast(s: seq<bool>, b: bool)
    ensures Odd(s + [b]) == (Odd(s) != b)
  {
    if s == [] {
      assert s + [b] == [b];
    } else {
      OddLast(s[1..], b);
      assert (s + [b])[1..] == s[1..] + [b];
    }
  }

  lemma {:induction false} OddZeros(n: nat)
    ensures !Odd(Repeat(n, false))
  {
    if n > 0 {
      OddZeros(n - 1);
      assert Repeat(n, false)[1..] == Repeat(n - 1, false);
    }
  }

  lemma {:induction false} OddOnes(n: nat)
    ensures Odd(Repeat(n, true)) == (n % 2 == 1)
  {
    if n > 0 {
      OddOnes(n - 1);
      assert Repeat(n, true)[1..] == Repeat(n - 1, true);
    }
  }

  lemma OddCons(b: bool, s: seq<bool>)
    ensures Odd([b] + s) == (b != Odd(s))
  {
    assert ([b] + s)[1..] == s;
  }

  lemma OddPoly()
    ensures Odd(POLY)
  {
    var zeros := Repeat(61, false);
    OddZeros(61);
    OddCons(true, zeros);
    OddCons(true, [true] + zeros);
    OddCons(true, [true] + ([true] + zeros));
    assert POLY == [true] + ([true] + ([true] + zeros));
  }

  // The register step keeps the parity.
  lemma OddNext(v: Word)
    ensures Odd(Next(v)) == Odd(v)
  {
    OddLast(v[..63], v[63]);
    assert v == v[..63] + [v[63]];
    assert Shl(v)[1..] == v[..63];
    OddXor(Shl(v), POLY);
    OddPoly();
  }

  lemma {:induction false} OddSteps(n: nat, v: Word)
    ensures Odd(Steps(n, v)) == Odd(v)
  {
    if n > 0 {
      OddSteps(n - 1, v);
      OddNext(Steps(n - 1, v));
    }
  }

  // A word of even parity that the register step leaves alone is zero.
  lemma FixedEven(u: Word)
    requires Next(u) == u && !Odd(u)
    ensures u == ZERO
  {
    var b := u[63];
    assert u[0] == b && u[1] == false && u[2] == b by {
      assert Next(u)[0] == u[0] && Next(u)[1] == u[1] && Next(u)[2] == u[2];
    }
    FixedTail(u, 63);
    if b {
      assert u[1..] == [false] + Repeat(62, true);
      assert u[1..][1..] == Repeat(62, true);
      OddOnes(62);
    }
  }

  lemma {:induction false} FixedTail(u: Word, n: nat)
    requires Next(u) == u && 2 <= n < 64
    ensures forall i :: 2 <= i <= n ==> u[i] == u[2]
  {
    if n > 2 {
      FixedTail(u, n - 1);
      assert Next(u)[n] == u[n - 1];
    }
  }

  /** PERIOD is a period of the stream. */
  lemma Period(p: nat)
    requires p == PERIOD
    ensures Steps(p, ONE) == ONE
  {
    assert Pow2(6) == 64;
    Pow2At63();
    PeriodTimesY(p, 63, 6, ONE);
    var e := Steps(p, ONE);
    StepsTimesY(p, ONE);
    var u := Xor(e, ONE);
    NextLinear(e, ONE);
    Square4(e, ONE, Next(e), Next(ONE));
    OddXor(e, ONE);
    OddSteps(p, ONE);
    FixedEven(u);
    XorEqual(e, ONE);
  }

  lemma Square4(a: Word, b: Word, c: Word, d: Word)
    requires Xor(a, c) == Xor(b, d)
    ensures Xor(a, b) == Xor(c, d)
  {
    forall i | 0 <= i < 64 ensures Xor(a, b)[i] == Xor(c, d)[i] {
      assert Xor(a, c)[i] == Xor(b, d)[i];
    }
  }

  lemma XorEqual(a: Word, b: Word)
    requires Xor(a, b) == ZERO
    ensures a == b
  {
    forall i | 0 <= i < 64 ensures a[i] == b[i] {
      assert Xor(a, b)[i] == ZERO[i];
    }
  }

  lemma Pow2At63()
    ensures Pow2(63) == 7 * PERIOD + 1
  {
    assert Pow2(9) == 512 && Pow2(18) == 262144;
    Pow2Add(18, 18);
    Pow2Add(36, 18);
    Pow2Add(54, 9);
  }
}
