/** Machine words as sequences of bits, least significant first. */
module Bits {

  function Repeat(n: nat, b: bool): (r: seq<bool>)
    ensures |r| == n
  {
    seq(n, _ => b)
  }

  // Addition over GF(2)
  function Xor(a: seq<bool>, b: seq<bool>): (r: seq<bool>)
    requires |a| == |b|
    ensures |r| == |a|
  {
    seq(|a|, i requires 0 <= i < |a| => a[i] != b[i])
  }

  function ToNat(s: seq<bool>): nat {
    if s == [] then 0 else 2 * ToNat(s[1..]) + if s[0] then 1 else 0
  }

  function FromNat(n: nat, width: nat): (r: seq<bool>)
    ensures |r| == width
  {
    if width == 0 then [] else [n % 2 == 1] + FromNat(n / 2, width - 1)
  }

  function Pow2(n: nat): (r: nat)
    ensures r > 0
  {
    if n == 0 then 1 else 2 * Pow2(n - 1)
  }

  lemma {:induction false} Pow2Add(a: nat, b: nat)
    ensures Pow2(a + b) == Pow2(a) * Pow2(b)
  {
    if a > 0 { Pow2Add(a - 1, b); }
  }

  lemma {:induction false} ToNatBound(b: seq<bool>)
    ensures ToNat(b) < Pow2(|b|)
  {
    if b != [] { ToNatBound(b[1..]); }
  }

  lemma {:induction false} FromToNat(b: seq<bool>, width: nat)
    requires |b| <= width
    ensures FromNat(ToNat(b), width) == b + Repeat(width - |b|, false)
  {
    if width > 0 {
      if b == [] {
        FromToNat([], width - 1);
      } else {
        FromToNat(b[1..], width - 1);
        assert ToNat(b) / 2 == ToNat(b[1..]);
      }
    }
  }

  lemma XorAssoc(a: seq<bool>, b: seq<bool>, c: seq<bool>)
    requires |a| == |b| == |c|
    ensures Xor(Xor(a, b), c) == Xor(a, Xor(b, c))
  {
  }
}
