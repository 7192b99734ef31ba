/** Machine words as bit sequences, most significant bit first, so that one model serves every register width. */
module Bits {

  type Word = seq<bool>

  function Zeros(n: nat): (r: Word)
    ensures |r| == n
    ensures forall i :: 0 <= i < n ==> !r[i]
  {
    seq(n, _ => false)
  }

  /** The `^` operator of two words of equal width. */
  function Xor(a: Word, b: Word): (r: Word)
    requires |a| == |b|
    ensures |r| == |a|
    ensures forall i :: 0 <= i < |a| ==> r[i] == (a[i] != b[i])
  {
    seq(|a|, i requires 0 <= i < |a| => a[i] != b[i])
  }

  /** `<<` on a register of fixed width: the bits shifted out at the top are lost. */
  function Shl(a: Word, n: nat): (r: Word)
    requires n <= |a|
    ensures |r| == |a|
    ensures forall i :: 0 <= i < |a| ==> r[i] == (i + n < |a| && a[i + n])
  {
    a[n..] + Zeros(n)
  }

  /** `>>` on an unsigned register of fixed width. */
  function Shr(a: Word, n: nat): (r: Word)
    requires n <= |a|
    ensures |r| == |a|
    ensures forall i :: 0 <= i < |a| ==> r[i] == (i >= n && a[i - n])
  {
    Zeros(n) + a[..|a| - n]
  }

  function Reverse(a: Word): (r: Word)
    ensures |r| == |a|
    ensures forall i :: 0 <= i < |a| ==> r[i] == a[|a| - 1 - i]
  {
    seq(|a|, i requires 0 <= i < |a| => a[|a| - 1 - i])
  }

  /** The `w` low-order bits of a number: conversion to an unsigned type of width `w`. */
  function FromNat(n: nat, w: nat): (r: Word)
    ensures |r| == w
  {
    if w == 0 then [] else FromNat(n / 2, w - 1) + [n % 2 == 1]
  }

  function Pow2(n: nat): (r: nat)
    ensures r > 0
  {
    if n == 0 then 1 else 2 * Pow2(n - 1)
  }

  /** The number a word denotes, used where a register indexes a table. */
  function ToNat(a: Word): (n: nat)
    ensures n < Pow2(|a|)
  {
    if a == [] then 0 else 2 * ToNat(a[..|a| - 1]) + (if a[|a| - 1] then 1 else 0)
  }

  /** One hexadecimal digit. */
  function Nibble(d: nat): (r: Word)
    ensures |r| == 4
  {
    [d / 8 % 2 == 1, d / 4 % 2 == 1, d / 2 % 2 == 1, d % 2 == 1]
  }

  /** A 32-bit constant, written as its hexadecimal digits. */
  function Hex(digits: seq<nat>): (r: Word)
    ensures |r| == 4 * |digits|
  {
    if digits == [] then [] else Nibble(digits[0]) + Hex(digits[1..])
  }

  /** The bits of one byte. */
  function Bits8(b: bv8): (r: Word)
    ensures |r| == 8
  {
    [b & 0x80 != 0, b & 0x40 != 0, b & 0x20 != 0, b & 0x10 != 0,
     b & 0x08 != 0, b & 0x04 != 0, b & 0x02 != 0, b & 0x01 != 0]
  }

  /** The bits of a byte string, in transmission order. */
  function BitsOf(data: seq<bv8>): (r: Word)
    ensures |r| == 8 * |data|
  {
    if data == [] then [] else Bits8(data[0]) + BitsOf(data[1..])
  }

  // ---------- conversions ----------

  lemma NibbleNumber(d: nat)
    requires d < 16
    ensures ToNat(Nibble(d)) == d
  {
    var a, b, c, e := d / 8 % 2 == 1, d / 4 % 2 == 1, d / 2 % 2 == 1, d % 2 == 1;
    FourBits(a, b, c, e);
    assert d == 8 * (d / 8 % 2) + 4 * (d / 4 % 2) + 2 * (d / 2 % 2) + d % 2;
  }

  lemma FourBits(a: bool, b: bool, c: bool, d: bool)
    ensures ToNat([a, b, c, d])
         == (if a then 8 else 0) + (if b then 4 else 0) + (if c then 2 else 0) + (if d then 1 else 0)
  {
    assert [a, b, c, d][..3] == [a, b, c] && [a, b, c][..2] == [a, b] && [a, b][..1] == [a] && [a][..0] == [];
    assert ToNat([a]) == if a then 1 else 0;
    assert ToNat([a, b]) == 2 * ToNat([a]) + if b then 1 else 0;
    assert ToNat([a, b, c]) == 2 * ToNat([a, b]) + if c then 1 else 0;
  }

  /** Appending four bits multiplies by sixteen. */
  lemma ToNatFourMore(w: Word, a: bool, b: bool, c: bool, d: bool)
    ensures ToNat(w + [a, b, c, d]) == 16 * ToNat(w) + ToNat([a, b, c, d])
  {
    FourBits(a, b, c, d);
    ToNatLast(w, a);
    ToNatLast(w + [a], b);
    ToNatLast(w + [a] + [b], c);
    ToNatLast(w + [a] + [b] + [c], d);
    assert w + [a] + [b] + [c] + [d] == w + [a, b, c, d];
  }

  lemma ToNatLast(w: Word, a: bool)
    ensures ToNat(w + [a]) == 2 * ToNat(w) + (if a then 1 else 0)
  {
    assert (w + [a])[..|w|] == w;
  }

  /** One more hexadecimal digit. */
  lemma HexNumber(a: seq<nat>, d: nat, n: nat)
    requires d < 16 && ToNat(Hex(a)) == n
    ensures ToNat(Hex(a + [d])) == 16 * n + d
  {
    HexLast(a, d);
    ToNatFourMore(Hex(a), d / 8 % 2 == 1, d / 4 % 2 == 1, d / 2 % 2 == 1, d % 2 == 1);
    NibbleNumber(d);
  }

  lemma {:induction false} FromNatToNat(a: Word)
    ensures FromNat(ToNat(a), |a|) == a
  {
    if a != [] {
      var n := ToNat(a);
      FromNatToNat(a[..|a| - 1]);
      assert n / 2 == ToNat(a[..|a| - 1]);
    }
  }

  lemma Bits8Injective(a: bv8, b: bv8)
    requires Bits8(a) == Bits8(b)
    ensures a == b
  {
    var s, t := Bits8(a), Bits8(b);
    assert s[0] == t[0] && s[1] == t[1] && s[2] == t[2] && s[3] == t[3];
    assert s[4] == t[4] && s[5] == t[5] && s[6] == t[6] && s[7] == t[7];
  }

  lemma ShrShr(a: Word, m: nat, n: nat)
    requires m + n <= |a|
    ensures Shr(Shr(a, m), n) == Shr(a, m + n)
  {
  }

  lemma ReverseReverse(a: Word)
    ensures Reverse(Reverse(a)) == a
  {
  }

  lemma ReverseConcat(a: Word, b: Word)
    ensures Reverse(a + b) == Reverse(b) + Reverse(a)
  {
  }

  lemma ReverseZeros(n: nat)
    ensures Reverse(Zeros(n)) == Zeros(n)
  {
  }

  lemma {:induction false} ReverseHex(a: seq<nat>, b: seq<nat>)
    requires |a| == |b|
    requires forall i :: 0 <= i < |a| ==> Reverse(Nibble(a[i])) == Nibble(b[|b| - 1 - i])
    ensures Reverse(Hex(a)) == Hex(b)
  {
    if a != [] {
      ReverseHex(a[1..], b[..|b| - 1]);
      ReverseConcat(Nibble(a[0]), Hex(a[1..]));
      HexLast(b[..|b| - 1], b[|b| - 1]);
      assert b == b[..|b| - 1] + [b[|b| - 1]];
    }
  }

  lemma {:induction false} HexLast(a: seq<nat>, d: nat)
    ensures Hex(a + [d]) == Hex(a) + Nibble(d)
  {
    if a != [] {
      assert (a + [d])[1..] == a[1..] + [d];
      HexLast(a[1..], d);
    } else {
      assert [] + [d] == [d] && [d][1..] == [];
    }
  }

  // ---------- algebra of exclusive or ----------

  lemma XorZero(a: Word, b: Word)
    requires |a| == |b|
    ensures Xor(a, Zeros(|a|)) == a
    ensures Xor(Zeros(|a|), a) == a
    ensures Xor(a, b) == Zeros(|a|) <==> a == b
  {
    if Xor(a, b) == Zeros(|a|) {
      forall i | 0 <= i < |a| ensures a[i] == b[i] {
        assert !Xor(a, b)[i];
      }
    }
  }

  lemma XorZeros(a: Word, n: nat)
    requires n <= |a|
    ensures Xor(a, Zeros(n) + Zeros(|a| - n)) == a
  {
    assert Zeros(n) + Zeros(|a| - n) == Zeros(|a|);
    XorZero(a, a);
  }

  lemma XorCancel(a: Word, b: Word)
    requires |a| == |b|
    ensures Xor(Xor(a, b), b) == a
    ensures Xor(a, b) == Xor(b, a)
  {
  }

  lemma XorAssoc(a: Word, b: Word, c: Word)
    requires |a| == |b| == |c|
    ensures Xor(a, Xor(b, c)) == Xor(Xor(a, b), c)
  {
  }

  /** An equation between sums can be regrouped, since every word is its own inverse. */
  lemma XorBoth(a: Word, b: Word, c: Word, d: Word)
    requires |a| == |b| == |c| == |d|
    requires Xor(a, b) == Xor(c, d)
    ensures Xor(a, c) == Xor(b, d)
  {
    forall i | 0 <= i < |a| ensures (a[i] != c[i]) == (b[i] != d[i]) {
      assert Xor(a, b)[i] == Xor(c, d)[i];
    }
  }

  lemma XorCons(a: Word, b: Word)
    requires |a| == |b|
    ensures Xor([false] + a, [false] + b) == [false] + Xor(a, b)
  {
  }

  lemma XorHead(a: Word, b: Word)
    requires |a| == |b| + 1 && a[0]
    ensures Xor([true] + b, [false] + Xor(a[1..], b)) == a
  {
  }

  lemma ZerosCons(n: nat, a: Word)
    ensures Zeros(n + 1) + a == [false] + (Zeros(n) + a)
  {
  }

  lemma XorShuffle(a: Word, b: Word, c: Word, d: Word)
    requires |a| == |b| == |c| == |d|
    ensures Xor(Xor(a, b), Xor(c, d)) == Xor(Xor(a, c), Xor(b, d))
  {
  }

  lemma XorAppend(a: Word, b: Word, c: Word, d: Word)
    requires |a| == |b| && |c| == |d|
    ensures Xor(a + c, b + d) == Xor(a, b) + Xor(c, d)
  {
  }
}
