/** Consequences of the division theorem: a message with its own register appended, odd numbers of bit errors. */
module CrcCodewords {
  import opened Bits
  import opened Gf2
  import opened Crc
  import opened CrcTheory

  // ---------- the register appended ----------

  /** The byte with the given bits, most significant first. */
  function ByteOf(bits: Word): (b: bv8)
    requires |bits| == 8
  {
    (if bits[0] then 0x80 else 0) | (if bits[1] then 0x40 else 0) | (if bits[2] then 0x20 else 0)
    | (if bits[3] then 0x10 else 0) | (if bits[4] then 0x08 else 0) | (if bits[5] then 0x04 else 0)
    | (if bits[6] then 0x02 else 0) | (if bits[7] then 0x01 else 0)
  }

  lemma ByteOfBits(bits: Word)
    requires |bits| == 8
    ensures Bits8(ByteOf(bits)) == bits
  {
  }

  /** The bytes that feed the bits of a register whose width is a number of bytes. */
  function BytesOf(r: Word, reflectedInput: bool): (data: seq<bv8>)
    requires |r| % 8 == 0
    ensures |data| == |r| / 8
  {
    if r == [] then []
    else [ByteOf(if reflectedInput then Reverse(r[..8]) else r[..8])] + BytesOf(r[8..], reflectedInput)
  }

  lemma {:induction false} BytesOfFeed(r: Word, reflectedInput: bool)
    requires |r| % 8 == 0
    ensures MessageBits(BytesOf(r, reflectedInput), reflectedInput) == r
  {
    if r != [] {
      var first := if reflectedInput then Reverse(r[..8]) else r[..8];
      var rest := BytesOf(r[8..], reflectedInput);
      ByteOfBits(first);
      ReverseReverse(r[..8]);
      BytesOfFeed(r[8..], reflectedInput);
      assert ([ByteOf(first)] + rest)[1..] == rest;
      assert r == r[..8] + r[8..];
    }
  }

  /** A register is cleared by feeding its own bits, and with an odd polynomial by no others. */
  lemma OnlyOwnBitsCancel(p: Word, r: Word, tail: seq<bv8>, reflectedInput: bool)
    requires |r| == |p| == 8 * |tail| && |p| > 0
    ensures MessageBits(tail, reflectedInput) == r ==> Run(Table(p), r, tail, reflectedInput) == Zeros(|p|)
    ensures p[|p| - 1] ==>
              (Run(Table(p), r, tail, reflectedInput) == Zeros(|p|) <==> MessageBits(tail, reflectedInput) == r)
  {
    var m := MessageBits(tail, reflectedInput);
    RunOfSum(p, r, tail, reflectedInput, Xor(r, m));
    XorZero(r, m);
    if r == m {
      ZeroStays(p, |p|);
    }
    if p[|p| - 1] {
      NonzeroSurvives(Xor(r, m), p, |p|);
    }
  }

  lemma ZeroStep(p: Word, z: Word)
    requires |p| > 0 && z == Zeros(|p|)
    ensures BitStep(z, p) == z
  {
  }

  lemma {:induction false} ZeroStays(p: Word, n: nat)
    requires |p| > 0
    ensures BitSteps(Zeros(|p|), p, n) == Zeros(|p|)
    decreases n
  {
    if n > 0 {
      ZeroStays(p, n - 1);
      ZeroStep(p, Zeros(|p|));
    }
  }

  /**
   * A receiver that runs over message and appended register sees zero, whatever the message and the initial value;
   * with an odd polynomial it sees zero only when the right bytes were appended.
   */
  lemma AppendedRegisterIsZero(p: Word, init: Word, data: seq<bv8>, tail: seq<bv8>, reflectedInput: bool)
    requires |init| == |p| == 8 * |tail| && |p| > 0
    ensures var r := Run(Table(p), init, data, reflectedInput);
            && Run(Table(p), init, data + BytesOf(r, reflectedInput), reflectedInput) == Zeros(|p|)
            && (p[|p| - 1] && Run(Table(p), init, data + tail, reflectedInput) == Zeros(|p|)
                ==> tail == BytesOf(r, reflectedInput))
  {
    var r := Run(Table(p), init, data, reflectedInput);
    var own := BytesOf(r, reflectedInput);
    BytesOfFeed(r, reflectedInput);
    RunConcat(Table(p), init, data, own, reflectedInput);
    RunConcat(Table(p), init, data, tail, reflectedInput);
    OnlyOwnBitsCancel(p, r, own, reflectedInput);
    OnlyOwnBitsCancel(p, r, tail, reflectedInput);
    if p[|p| - 1] && Run(Table(p), init, data + tail, reflectedInput) == Zeros(|p|) {
      MessageBitsInjective(tail, own, reflectedInput);
    }
  }

  /** What the register comes to depends only on the sum of its bits and those fed. */
  lemma RunOfSum(p: Word, r: Word, tail: seq<bv8>, reflectedInput: bool, sum: Word)
    requires |r| == |p| == 8 * |tail| && |p| > 0 && sum == Xor(r, MessageBits(tail, reflectedInput))
    ensures Run(Table(p), r, tail, reflectedInput) == BitSteps(sum, p, |p|)
  {
    var m, z := MessageBits(tail, reflectedInput), Zeros(|p|);
    RunIsReduce(p, r, tail, reflectedInput);
    XorAppend(r, m, z, z);
    XorZero(z, z);
    ReduceOfRegister(sum, p, |p|);
  }

  /** With an odd polynomial different sums come to different registers. */
  lemma StepsInjective(p: Word, a: Word, b: Word, n: nat)
    requires |a| == |b| == |p| > 0 && p[|p| - 1]
    ensures BitSteps(a, p, n) == BitSteps(b, p, n) <==> a == b
  {
    BitStepsLinear(a, b, p, n);
    NonzeroSurvives(Xor(a, b), p, n);
    XorZero(a, b);
    XorZero(BitSteps(a, p, n), BitSteps(b, p, n));
  }

  // ---------- an odd number of bit errors ----------

  /** Whether the number of ones is odd. */
  function Odd(a: Word): bool {
    a != [] && (a[0] != Odd(a[1..]))
  }

  lemma {:induction false} OddXor(a: Word, b: Word)
    requires |a| == |b|
    ensures Odd(Xor(a, b)) == (Odd(a) != Odd(b))
  {
    if a != [] {
      assert Xor(a, b)[1..] == Xor(a[1..], b[1..]);
      OddXor(a[1..], b[1..]);
    }
  }

  lemma {:induction false} OddConcat(a: Word, b: Word)
    ensures Odd(a + b) == (Odd(a) != Odd(b))
  {
    if a == [] {
      assert a + b == b;
    } else {
      assert (a + b)[1..] == a[1..] + b;
      OddConcat(a[1..], b);
    }
  }

  lemma {:induction false} ZerosEven(n: nat)
    ensures !Odd(Zeros(n))
  {
    if n > 0 {
      assert Zeros(n)[1..] == Zeros(n - 1);
      ZerosEven(n - 1);
    }
  }

  /** The number of terms of a product is odd exactly when both numbers of terms are. */
  lemma {:induction false} OddMul(q: Word, g: Word)
    requires |g| > 0
    ensures Odd(Mul(q, g)) == (Odd(q) && Odd(g))
  {
    if q == [] {
      ZerosEven(|g| - 1);
    } else {
      var first, later := Scaled(q[0], g) + Zeros(|q| - 1), [false] + Mul(q[1..], g);
      OddMul(q[1..], g);
      OddXor(first, later);
      OddConcat(Scaled(q[0], g), Zeros(|q| - 1));
      ZerosEven(|q| - 1);
      ZerosEven(|g|);
      assert later[1..] == Mul(q[1..], g);
    }
  }

  /** A generator with an even number of terms detects every error in an odd number of bits. */
  lemma OddErrorsDetected(p: Word, init: Word, xorValue: Word, reflectedOutput: bool, reflectedInput: bool,
                          finalXor: bool, a: seq<bv8>, b: seq<bv8>)
    requires |init| == |xorValue| == |p| >= 8 && |a| == |b| && !Odd(Monic(p))
    requires Odd(Xor(MessageBits(a, reflectedInput), MessageBits(b, reflectedInput)))
    ensures Value(Table(p), a, init, xorValue, reflectedOutput, reflectedInput, finalXor)
         != Value(Table(p), b, init, xorValue, reflectedOutput, reflectedInput, finalXor)
  {
    var e := Xor(MessageBits(a, reflectedInput), MessageBits(b, reflectedInput));
    UndetectedIffMultiple(p, init, xorValue, reflectedOutput, reflectedInput, finalXor, a, b);
    OddConcat(e, Zeros(|p|));
    ZerosEven(|p|);
    if IsMultiple(e + Zeros(|p|), p) {
      var q: Word :| IsProduct(e + Zeros(|p|), q, Monic(p));
      OddMul(q, Monic(p));
    }
  }
}
