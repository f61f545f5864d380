/** The HPCC RandomAccess benchmark of sources/gups/gups.c: the square-and-multiply jump to the n-th value of the
    stream, and the update loop over 128 batched streams. */
module Gups {
  import opened Bits
  import opened Lfsr

  const STREAMS: nat := 128

  // ---------- squaring ----------

  // The xor of x^(2j) over the set bits j < n of v: what the inner loop of HPCC_starts computes
  function Square(v: Word, n: nat): Word
    requires n <= 64
  {
    if n == 0 then ZERO else if v[n - 1] then Xor(Square(v, n - 1), Steps(2 * (n - 1), ONE)) else Square(v, n - 1)
  }

  lemma {:induction false} SquareLinear(a: Word, b: Word, n: nat)
    requires n <= 64
    ensures Square(Xor(a, b), n) == Xor(Square(a, n), Square(b, n))
  {
    if n > 0 {
      SquareLinear(a, b, n - 1);
    } else {
      XorZero(ZERO);
    }
  }

  // Shifting left by one multiplies the square by x^2.
  lemma {:induction false} SquareShl(v: Word, n: nat)
    requires n < 64
    ensures Square(Shl(v), n + 1) == Steps(2, Square(v, n))
  {
    if n == 0 {
      assert Square(Shl(v), 1) == Square(Shl(v), 0);
      StepsOfZero(2);
    } else {
      SquareShl(v, n - 1);
      assert Shl(v)[n] == v[n - 1];
      if v[n - 1] {
        StepsLinear(2, Square(v, n - 1), Steps(2 * (n - 1), ONE));
        StepsAdd(2, 2 * (n - 1), ONE);
      }
    }
  }

  lemma {:induction false} SquareTail(v: Word, m: nat, n: nat)
    requires m <= n <= 64 && forall i :: m <= i < n ==> !v[i]
    ensures Square(v, n) == Square(v, m)
  {
    if m < n { SquareTail(v, m, n - 1); }
  }

  lemma SquarePoly()
    ensures Square(POLY, 64) == Steps(128, ONE)
  {
    SquareTail(POLY, 3, 64);
    ReduceSquare(0);
    assert Square(POLY, 1) == Xor(ZERO, Steps(0, ONE));
    XorZero(Steps(0, ONE));
    assert Square(POLY, 2) == Xor(Square(POLY, 1), Steps(2, ONE));
    assert Square(POLY, 3) == Xor(Square(POLY, 2), Steps(4, ONE));
  }

  // Squaring commutes with the register step: (x v)^2 = x^2 v^2
  lemma SquareNext(v: Word)
    ensures Square(Next(v), 64) == Steps(2, Square(v, 64))
  {
    SquareShl(v, 63);
    if v[63] {
      SquareLinear(Shl(v), POLY, 64);
      SquarePoly();
      StepsLinear(2, Square(v, 63), Steps(126, ONE));
      StepsAdd(2, 126, ONE);
    }
  }

  /** The inner loop maps the k-th value of the stream to the 2k-th. */
  lemma {:induction false} SquareSteps(k: nat)
    ensures Square(Steps(k, ONE), 64) == Steps(2 * k, ONE)
  {
    if k == 0 {
      SquareTail(ONE, 1, 64);
      XorZero(ONE);
    } else {
      SquareSteps(k - 1);
      SquareNext(Steps(k - 1, ONE));
      StepsAdd(2, 2 * (k - 1), ONE);
    }
  }

  // ---------- HPCC_starts ----------

  // w is the n-th value of the stream; a negative n counts backwards from 1.
  predicate At(n: int, w: Word) {
    if n >= 0 then w == Steps(n, ONE) else Steps(-n, w) == ONE
  }

  // Going round the period once, in either direction, leads to the same value.
  lemma AtOnwards(n: nat, p: nat, w: Word)
    requires p == PERIOD && At(n, w)
    ensures At(n + p, w)
  {
    Period(p);
    StepsAdd(n, p, ONE);
  }

  lemma AtBackwards(n: int, p: nat, w: Word)
    requires p == PERIOD && At(n, w) && n < p
    ensures At(n - p, w)
  {
    Period(p);
    if n >= 0 {
      StepsAdd(p - n, n, ONE);
    } else {
      StepsAdd(p, -n, w);
    }
  }

  /** HPCC_starts: the n-th value of the stream by squaring, for every n. */
  method Starts(n0: int) returns (ran: Word)
    ensures At(n0, ran)
  {
    var n, p := n0, PERIOD;
    while n < 0
      invariant p == PERIOD && forall w :: At(n, w) ==> At(n0, w)
    {
      forall w | At(n + p, w) ensures At(n, w) { AtBackwards(n + p, p, w); }
      n := n + p;
    }
    while n > p
      invariant 0 <= n && p == PERIOD && forall w :: At(n, w) ==> At(n0, w)
    {
      forall w | At(n - p, w) ensures At(n, w) { AtOnwards(n - p, p, w); }
      n := n - p;
    }
    assert 0 <= n <= p && forall w :: At(n, w) ==> At(n0, w);
    ran := Jump(n);
  }

  // The jump within the first period
  method Jump(n: nat) returns (ran: Word)
    requires n <= PERIOD
    ensures ran == Steps(n, ONE)
  {
    if n == 0 {
      return ONE;
    }
    var m2 := SquareTable();
    var i := TopBit(n);
    ran := Next(ONE);
    assert ran == Steps(1, ONE);
    while i > 0
      invariant i <= 62 && ran == Steps(ShiftRight(n, i), ONE)
      invariant SquareTableOK(m2)
    {
      ghost var k := ShiftRight(n, i);
      ran := MulTable(m2, ran);
      SquareSteps(k);
      i := i - 1;
      assert ShiftRight(n, i) == 2 * k + ShiftRight(n, i) % 2;
      if ShiftRight(n, i) % 2 == 1 {
        ran := Next(ran);
        StepsSucc(2 * k);
      }
    }
  }

  // n >> i
  function ShiftRight(n: nat, i: nat): nat {
    if i == 0 then n else ShiftRight(n, i - 1) / 2
  }

  lemma {:induction false} ShiftBound(n: nat, i: nat, k: nat)
    requires i <= k && n < Pow2(k)
    ensures ShiftRight(n, i) < Pow2(k - i)
  {
    if i > 0 { ShiftBound(n, i - 1, k); }
  }

  // Position of the highest set bit
  method TopBit(n: nat) returns (i: nat)
    requires 0 < n <= PERIOD
    ensures i <= 62 && ShiftRight(n, i) == 1
  {
    Pow2At63();
    ShiftBound(n, 63, 63);
    i := 62;
    while ShiftRight(n, i) % 2 == 0
      invariant i <= 62 && ShiftRight(n, i + 1) == 0
      decreases i
    {
      i := i - 1;
    }
  }

  ghost predicate SquareTableOK(m2: array<Word>)
    reads m2
  {
    m2.Length == 64 && forall j :: 0 <= j < 64 ==> m2[j] == Steps(2 * j, ONE)
  }

  method SquareTable() returns (m2: array<Word>)
    ensures fresh(m2) && SquareTableOK(m2)
  {
    m2 := new Word[64](_ => ZERO);
    var temp := ONE;
    for i := 0 to 64
      invariant temp == Steps(2 * i, ONE)
      invariant forall j :: 0 <= j < i ==> m2[j] == Steps(2 * j, ONE)
    {
      m2[i] := temp;
      temp := Next(temp);
      temp := Next(temp);
      assert temp == Steps(2 * i + 2, ONE);
    }
  }

  method MulTable(m2: array<Word>, ran: Word) returns (temp: Word)
    requires SquareTableOK(m2)
    ensures temp == Square(ran, 64)
  {
    temp := ZERO;
    for j := 0 to 64
      invariant temp == Square(ran, j)
    {
      if ran[j] { temp := Xor(temp, m2[j]); }
    }
  }

  // ---------- the update loop ----------

  // Finite xor sums over a grid
  function Row(g: (nat, nat) -> Word, i: nat, m: nat): Word {
    if m == 0 then ZERO else Xor(Row(g, i, m - 1), g(i, m - 1))
  }

  function Column(g: (nat, nat) -> Word, j: nat, n: nat): Word {
    if n == 0 then ZERO else Xor(Column(g, j, n - 1), g(n - 1, j))
  }

  function Rows(g: (nat, nat) -> Word, n: nat, m: nat): Word {
    if n == 0 then ZERO else Xor(Rows(g, n - 1, m), Row(g, n - 1, m))
  }

  function Columns(g: (nat, nat) -> Word, m: nat, n: nat): Word {
    if m == 0 then ZERO else Xor(Columns(g, m - 1, n), Column(g, m - 1, n))
  }

  lemma {:induction false} ColumnsGrow(g: (nat, nat) -> Word, m: nat, n: nat)
    ensures Columns(g, m, n + 1) == Xor(Columns(g, m, n), Row(g, n, m))
  {
    if m == 0 {
      XorZero(ZERO);
    } else {
      ColumnsGrow(g, m - 1, n);
      Swap(Columns(g, m - 1, n), Row(g, n, m - 1), Column(g, m - 1, n), g(n, m - 1));
    }
  }

  /** A grid summed row by row equals the grid summed column by column. */
  lemma {:induction false} RowsAreColumns(g: (nat, nat) -> Word, n: nat, m: nat)
    ensures Rows(g, n, m) == Columns(g, m, n)
  {
    if n == 0 {
      ColumnsEmpty(g, m);
    } else {
      RowsAreColumns(g, n - 1, m);
      ColumnsGrow(g, m, n - 1);
    }
  }

  lemma {:induction false} ColumnsEmpty(g: (nat, nat) -> Word, m: nat)
    ensures Columns(g, m, 0) == ZERO
  {
    if m > 0 {
      ColumnsEmpty(g, m - 1);
      XorZero(ZERO);
    }
  }

  // What one update with value u adds to cell c: u goes to cells u % size and size - u % size.
  function Hit(size: nat, c: nat, u: Word): Word
    requires size > 0
  {
    var elm := ToNat(u) % size;
    Xor(if c == elm then u else ZERO, if c == size - elm then u else ZERO)
  }

  // The t-th update (counting from 0) of the single stream, seen from cell c
  function Update(size: nat, c: nat, t: nat): Word
    requires size > 0
  {
    Hit(size, c, Steps(t + 1, ONE))
  }

  // Stream j starts at q * j, so its i-th value is update q * j + i of the single stream.
  function Grid(size: nat, c: nat, q: nat): (nat, nat) -> Word
    requires size > 0
  {
    (i: nat, j: nat) => Update(size, c, q * j + i)
  }

  // The first n updates of the single stream, seen from cell c
  function Sequential(size: nat, c: nat, n: nat): Word
    requires size > 0
  {
    if n == 0 then ZERO else Xor(Sequential(size, c, n - 1), Update(size, c, n - 1))
  }

  lemma {:induction false} ColumnIsRun(size: nat, c: nat, q: nat, j: nat, n: nat, base: nat)
    requires size > 0 && base == q * j
    ensures Sequential(size, c, base + n) == Xor(Sequential(size, c, base), Column(Grid(size, c, q), j, n))
  {
    if n == 0 {
      XorZero(Sequential(size, c, base));
    } else {
      ColumnIsRun(size, c, q, j, n - 1, base);
      XorAssoc(Sequential(size, c, base), Column(Grid(size, c, q), j, n - 1), Update(size, c, base + (n - 1)));
    }
  }

  lemma {:induction false} ColumnsAreSequential(size: nat, c: nat, q: nat, m: nat, total: nat)
    requires size > 0 && total == q * m
    ensures Columns(Grid(size, c, q), m, q) == Sequential(size, c, total)
  {
    if m > 0 {
      var base := q * (m - 1);
      assert total == base + q;
      ColumnsAreSequential(size, c, q, m - 1, base);
      ColumnIsRun(size, c, q, m - 1, q, base);
    }
  }

  // Table cell c after all streams took n steps each and the first j of them one more
  function Batched(size: nat, c: nat, q: nat, n: nat, j: nat): Word
    requires size > 0
  {
    Xor(Rows(Grid(size, c, q), n, STREAMS), Row(Grid(size, c, q), n, j))
  }

  lemma BatchedStep(cell: Word, size: nat, c: nat, q: nat, n: nat, j: nat)
    requires size > 0
    ensures Xor(Xor(cell, Batched(size, c, q, n, j)), Update(size, c, q * j + n)) ==
            Xor(cell, Batched(size, c, q, n, j + 1))
  {
    var g := Grid(size, c, q);
    var u := g(n, j);
    XorAssoc(cell, Batched(size, c, q, n, j), u);
    XorAssoc(Rows(g, n, STREAMS), Row(g, n, j), u);
  }

  lemma BatchedRow(size: nat, c: nat, q: nat, n: nat)
    requires size > 0
    ensures Batched(size, c, q, n, STREAMS) == Batched(size, c, q, n + 1, 0)
  {
    XorZero(Rows(Grid(size, c, q), n + 1, STREAMS));
  }

  // Table[elm] ^= u; Table[TableSize - elm] ^= u
  method ApplyUpdate(table: array<Word>, size: nat, u: Word)
    requires 0 < size < table.Length
    modifies table
    ensures forall c: nat :: c < table.Length ==> table[c] == Xor(old(table[c]), Hit(size, c, u))
  {
    var elm := ToNat(u) % size;
    ghost var t := table[..];
    table[elm] := Xor(table[elm], u);
    table[size - elm] := Xor(table[size - elm], u);
    forall c: nat | c < table.Length ensures table[c] == Xor(t[c], Hit(size, c, u)) {
      HitCases(size, c, u, t[c]);
    }
  }

  lemma HitCases(size: nat, c: nat, u: Word, cell: Word)
    requires size > 0
    ensures var elm := ToNat(u) % size;
      Xor(cell, Hit(size, c, u)) == if c == elm && c == size - elm then Xor(Xor(cell, u), u)
                                    else if c == elm || c == size - elm then Xor(cell, u) else cell
  {
    XorAssoc(cell, u, u);
    XorZero(u);
    XorZero(ZERO);
    XorZero(cell);
  }

  // The value of stream k after i steps; stream k starts at q * k.
  function Stream(q: nat, k: nat, i: nat): Word {
    Steps(q * k + i, ONE)
  }

  lemma StreamNext(q: nat, k: nat, i: nat)
    ensures Next(Stream(q, k, i)) == Stream(q, k, i + 1) == Steps(q * k + i + 1, ONE)
  {
    StepsSucc(q * k + i);
    assert q * k + i + 1 == q * k + (i + 1);
  }

  // The table when the first j streams have taken their i-th step
  ghost predicate TableAt(table: seq<Word>, t0: seq<Word>, size: nat, q: nat, i: nat, j: nat)
    requires size > 0
  {
    |table| == |t0| && forall c: nat {:trigger table[c]} :: c < |table| ==>
        table[c] == Xor(t0[c], Batched(size, c, q, i, j))
  }

  // The update of stream j
  method UpdateOne(table: array<Word>, ghost t0: seq<Word>, size: nat, ghost q: nat, ghost i: nat, ghost j: nat,
      u: Word)
    requires 0 < size < table.Length && TableAt(table[..], t0, size, q, i, j) && u == Stream(q, j, i + 1)
    modifies table
    ensures TableAt(table[..], t0, size, q, i, j + 1)
  {
    ghost var t := table[..];
    StreamNext(q, j, i);
    ApplyUpdate(table, size, u);
    forall c: nat | c < table.Length ensures table[c] == Xor(t0[c], Batched(size, c, q, i, j + 1)) {
      assert t[c] == Xor(t0[c], Batched(size, c, q, i, j));
      BatchedStep(t0[c], size, c, q, i, j);
    }
  }

  // One pass of the inner loop over the streams
  method UpdateRow(table: array<Word>, ghost t0: seq<Word>, size: nat, ghost q: nat, ghost i: nat, ran: array<Word>)
    requires 0 < size < table.Length && ran.Length == STREAMS && ran != table
    requires forall k: nat {:trigger ran[k]} :: k < STREAMS ==> ran[k] == Stream(q, k, i)
    requires TableAt(table[..], t0, size, q, i, 0)
    modifies table, ran
    ensures forall k: nat {:trigger ran[k]} :: k < STREAMS ==> ran[k] == Stream(q, k, i + 1)
    ensures TableAt(table[..], t0, size, q, i + 1, 0)
  {
    for j := 0 to STREAMS
      invariant forall k: nat {:trigger ran[k]} :: k < STREAMS ==> ran[k] == Stream(q, k, if k < j then i + 1 else i)
      invariant TableAt(table[..], t0, size, q, i, j)
    {
      StreamNext(q, j, i);
      ran[j] := Next(ran[j]);
      UpdateOne(table, t0, size, q, i, j, ran[j]);
    }
    RowDone(table[..], t0, size, q, i);
  }

  lemma RowDone(table: seq<Word>, t0: seq<Word>, size: nat, q: nat, i: nat)
    requires size > 0 && TableAt(table, t0, size, q, i, STREAMS)
    ensures TableAt(table, t0, size, q, i + 1, 0)
  {
    forall c: nat | c < |table| ensures table[c] == Xor(t0[c], Batched(size, c, q, i + 1, 0)) {
      BatchedRow(size, c, q, i);
    }
  }

  /** The serial update loop: the table ends as if one stream had made all the updates in order, up to the last
      whole round of the 128 streams. */
  method UpdateTable(table: array<Word>, size: nat, nupdate: nat)
    requires 0 < size < table.Length
    modifies table
    ensures var done := nupdate / STREAMS * STREAMS;
            forall c: nat :: c < table.Length ==> table[c] == Xor(old(table[c]), Sequential(size, c, done))
  {
    var q := nupdate / STREAMS;
    ghost var t0 := table[..];
    var ran := InitStreams(q);
    assert TableAt(table[..], t0, size, q, 0, 0) by {
      forall c: nat | c < table.Length ensures table[c] == Xor(t0[c], Batched(size, c, q, 0, 0)) {
        XorZero(ZERO);
        XorZero(t0[c]);
      }
    }
    for i := 0 to q
      invariant forall k: nat {:trigger ran[k]} :: k < STREAMS ==> ran[k] == Stream(q, k, i)
      invariant TableAt(table[..], t0, size, q, i, 0)
    {
      UpdateRow(table, t0, size, q, i, ran);
    }
    ghost var t := table[..];
    forall c: nat | c < table.Length ensures table[c] == Xor(t0[c], Sequential(size, c, q * STREAMS)) {
      assert t[c] == Xor(t0[c], Batched(size, c, q, q, 0));
      AllUpdates(size, c, q, q * STREAMS);
    }
  }

  lemma AllUpdates(size: nat, c: nat, q: nat, nupdate: nat)
    requires size > 0 && nupdate == q * STREAMS
    ensures Batched(size, c, q, q, 0) == Sequential(size, c, nupdate)
  {
    var g := Grid(size, c, q);
    XorZero(Rows(g, q, STREAMS));
    RowsAreColumns(g, q, STREAMS);
    ColumnsAreSequential(size, c, q, STREAMS, nupdate);
  }

  method InitStreams(q: nat) returns (ran: array<Word>)
    ensures fresh(ran) && ran.Length == STREAMS
    ensures forall k: nat {:trigger ran[k]} :: k < STREAMS ==> ran[k] == Stream(q, k, 0)
  {
    ran := new Word[STREAMS](_ => ZERO);
    for j := 0 to STREAMS
      invariant forall k: nat {:trigger ran[k]} :: k < j ==> ran[k] == Stream(q, k, 0)
    {
      StartIsNat(q, j);
      ran[j] := Starts(q * j);
    }
  }

  lemma StartIsNat(q: nat, j: nat)
    ensures q * j >= 0
  {
  }
}
