/** The reflected form of the engine is the usual least-significant-bit-first CRC, which shifts right. */
module CrcReflected {
  import opened Bits
  import opened Crc
  import opened CrcTheory

  function LsbStep(l: Word, q: Word): (l': Word)
    requires |l| == |q| > 0
    ensures |l'| == |q|
  {
    if l[|l| - 1] then Xor(Shr(l, 1), q) else Shr(l, 1)
  }

  function LsbSteps(l: Word, q: Word, n: nat): (l': Word)
    requires |l| == |q| > 0
    ensures |l'| == |q|
    decreases n, q
  {
    if n == 0 then l else LsbStep(LsbSteps(l, q, n - 1), q)
  }

  /** Bitwise: exclusive-or the byte into the low end of the register, then shift right eight times. */
  function LsbRun(l: Word, data: seq<bv8>, q: Word): (l': Word)
    requires |l| == |q| >= 8
    ensures |l'| == |q|
    decreases |data|
  {
    if data == [] then l
    else LsbRun(LsbSteps(Xor(l, Zeros(|q| - 8) + Bits8(data[0])), q, 8), data[1..], q)
  }

  lemma ReverseXor(a: Word, b: Word)
    requires |a| == |b|
    ensures Reverse(Xor(a, b)) == Xor(Reverse(a), Reverse(b))
  {
  }

  lemma ReverseBitStep(r: Word, p: Word)
    requires |r| == |p| > 0
    ensures Reverse(BitStep(r, p)) == LsbStep(Reverse(r), Reverse(p))
  {
    assert Reverse(Shl(r, 1)) == Shr(Reverse(r), 1);
    ReverseXor(Shl(r, 1), p);
  }

  lemma {:induction false} ReverseBitSteps(r: Word, p: Word, n: nat)
    requires |r| == |p| > 0
    ensures Reverse(BitSteps(r, p, n)) == LsbSteps(Reverse(r), Reverse(p), n)
    decreases n
  {
    if n > 0 {
      ReverseBitSteps(r, p, n - 1);
      ReverseBitStep(BitSteps(r, p, n - 1), p);
    }
  }

  lemma ReverseByteStep(p: Word, r: Word, b: bv8)
    requires |r| == |p| >= 8
    ensures Reverse(ByteStep(Table(p), r, Fed(b, true)))
         == LsbSteps(Xor(Reverse(r), Zeros(|p| - 8) + Bits8(b)), Reverse(p), 8)
  {
    var x := Fed(b, true) + Zeros(|p| - 8);
    ByteStepIsBitSteps(p, r, Fed(b, true));
    ReverseBitSteps(Xor(r, x), p, 8);
    ReverseXor(r, x);
    ReverseConcat(Fed(b, true), Zeros(|p| - 8));
    ReverseZeros(|p| - 8);
    ReverseReverse(Bits8(b));
  }

  /** With reflected input and output the engine equals the right-shifting CRC on reflected parameters. */
  lemma {:induction false} ReflectedRunIsLsbRun(p: Word, init: Word, data: seq<bv8>)
    requires |init| == |p| >= 8
    ensures Reverse(Run(Table(p), init, data, true)) == LsbRun(Reverse(init), data, Reverse(p))
    decreases |data|
  {
    if data != [] {
      ReverseByteStep(p, init, data[0]);
      ReflectedRunIsLsbRun(p, ByteStep(Table(p), init, Fed(data[0], true)), data[1..]);
    }
  }

  // ---------- the right-shifting table form ----------

  /** Entry n of the right-shifting table: n shifted right eight times. */
  function LsbEntry(n: nat, q: Word): (c: Word)
    requires |q| >= 8
    ensures |c| == |q|
  {
    LsbSteps(Zeros(|q| - 8) + FromNat(n, 8), q, 8)
  }

  /** table[(c ^ byte) & 0xff] ^ (c >> 8) */
  function LsbTableStep(c: Word, b: Word, q: Word): (c': Word)
    requires |c| == |q| >= 8 == |b|
    ensures |c'| == |q|
  {
    Xor(LsbEntry(ToNat(Xor(c[|q| - 8..], b)), q), Shr(c, 8))
  }

  function LsbTableRun(c: Word, data: seq<bv8>, q: Word): (c': Word)
    requires |c| == |q| >= 8
    ensures |c'| == |q|
    decreases |data|
  {
    if data == [] then c else LsbTableRun(LsbTableStep(c, Bits8(data[0]), q), data[1..], q)
  }

  lemma LsbStepsLinear(a: Word, b: Word, q: Word, n: nat)
    requires |a| == |b| == |q| > 0
    ensures LsbSteps(Xor(a, b), q, n) == Xor(LsbSteps(a, q, n), LsbSteps(b, q, n))
  {
    var a', b', q' := Reverse(a), Reverse(b), Reverse(q);
    ReverseReverse(a);
    ReverseReverse(b);
    ReverseReverse(q);
    ReverseXor(a', b');
    ReverseBitSteps(a', q', n);
    ReverseBitSteps(b', q', n);
    ReverseBitSteps(Xor(a', b'), q', n);
    BitStepsLinear(a', b', q', n);
    ReverseXor(BitSteps(a', q', n), BitSteps(b', q', n));
  }

  lemma LsbStepsMoveDown(t: Word, q: Word)
    requires |t| + 8 == |q|
    ensures LsbSteps(t + Zeros(8), q, 8) == Zeros(8) + t
  {
    BitStepsMoveUp(Reverse(t), Reverse(q));
    ReverseBitSteps(Zeros(8) + Reverse(t), Reverse(q), 8);
    ReverseReverse(q);
    ReverseReverse(t);
    ReverseZeros(8);
    ReverseConcat(Zeros(8), Reverse(t));
    ReverseConcat(Reverse(t), Zeros(8));
  }

  lemma SplitRegister(c: Word, b: Word)
    requires |c| >= 8 == |b|
    ensures var z, high, low := Zeros(|c| - 8), c[..|c| - 8], Xor(c[|c| - 8..], b);
            Xor(c, z + b) == Xor(z + low, high + Zeros(8))
  {
    var z, high, end := Zeros(|c| - 8), c[..|c| - 8], c[|c| - 8..];
    var low := Xor(end, b);
    assert c == high + end;
    XorZero(high, high);
    XorZero(low, low);
    XorAppend(high, z, end, b);
    XorAppend(z, high, low, Zeros(8));
  }

  lemma LsbLookup(high: Word, low: Word, q: Word, r: Word)
    requires |low| == 8 && |q| == |high| + 8
    requires r == Xor(Zeros(|high|) + low, high + Zeros(8))
    ensures Xor(LsbEntry(ToNat(low), q), Zeros(8) + high) == LsbSteps(r, q, 8)
  {
    FromNatToNat(low);
    LsbStepsMoveDown(high, q);
    LsbStepsLinear(Zeros(|high|) + low, high + Zeros(8), q, 8);
  }

  lemma LsbTableStepIsLsbSteps(c: Word, b: Word, q: Word)
    requires |c| == |q| >= 8 == |b|
    ensures LsbTableStep(c, b, q) == LsbSteps(Xor(c, Zeros(|q| - 8) + b), q, 8)
  {
    var high, low, r := c[..|q| - 8], Xor(c[|q| - 8..], b), Xor(c, Zeros(|q| - 8) + b);
    assert r == Xor(Zeros(|high|) + low, high + Zeros(8)) by {
      SplitRegister(c, b);
    }
    LsbLookup(high, low, q, r);
  }

  lemma {:induction false} LsbTableRunIsLsbRun(c: Word, data: seq<bv8>, q: Word)
    requires |c| == |q| >= 8
    ensures LsbTableRun(c, data, q) == LsbRun(c, data, q)
    decreases |data|
  {
    if data != [] {
      LsbTableStepIsLsbSteps(c, Bits8(data[0]), q);
      LsbTableRunIsLsbRun(LsbTableStep(c, Bits8(data[0]), q), data[1..], q);
    }
  }

  // ---------- the checksum of section 8 of RFC 1952 ----------

  function Ones(n: nat): (r: Word)
    ensures |r| == n
    ensures forall i :: 0 <= i < n ==> r[i]
  {
    seq(n, _ => true)
  }

  const RFC1952_POLYNOMIAL: Word := Hex([0xE, 0xD, 0xB, 0x8, 0x8, 0x3, 0x2, 0x0])

  function Rfc1952Crc(data: seq<bv8>): (c: Word)
    ensures |c| == 32
  {
    Xor(LsbTableRun(Ones(32), data, RFC1952_POLYNOMIAL), Ones(32))
  }
}
