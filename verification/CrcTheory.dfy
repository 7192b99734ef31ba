/** What a CRC run means: the remainder of a polynomial division, for every width, polynomial and message. */
module CrcTheory {
  import opened Bits
  import opened Gf2
  import opened Crc

  /** The message as the coefficients that enter the division, in order. */
  function MessageBits(data: seq<bv8>, reflectedInput: bool): (m: Word)
    ensures |m| == 8 * |data|
  {
    if data == [] then [] else Fed(data[0], reflectedInput) + MessageBits(data[1..], reflectedInput)
  }

  /** init * x^(8n) + message * x^w */
  function Dividend(init: Word, message: Word): (d: Word)
    ensures |d| == |message| + |init|
  {
    Xor(init + Zeros(|message|), message + Zeros(|init|))
  }

  // ---------- shifting a register is dividing ----------

  lemma DivStepOfRegister(r: Word, p: Word, n: nat)
    requires |r| == |p| > 0
    ensures DivStep(r + Zeros(n + 1), p) == BitStep(r, p) + Zeros(n)
  {
    var d := r + Zeros(n + 1);
    assert d[1..] == Shl(r, 1) + Zeros(n);
    if r[0] {
      XorAppend(Shl(r, 1), p, Zeros(n), Zeros(n));
      XorZero(Zeros(n), Zeros(n));
    }
  }

  lemma {:induction false} BitStepsFrom(r: Word, p: Word, m: nat, n: nat, s: Word)
    requires |r| == |p| > 0 && s == BitSteps(r, p, m)
    ensures BitSteps(r, p, m + n) == BitSteps(s, p, n)
    decreases n
  {
    if n > 0 {
      BitStepsFrom(r, p, m, n - 1, s);
    }
  }

  lemma BitStepsSplit(r: Word, p: Word, m: nat, n: nat)
    requires |r| == |p| > 0
    ensures BitSteps(r, p, m + n) == BitSteps(BitSteps(r, p, m), p, n)
  {
    BitStepsFrom(r, p, m, n, BitSteps(r, p, m));
  }

  lemma {:induction false} ReduceOfRegister(r: Word, p: Word, n: nat)
    requires |r| == |p| > 0
    ensures Reduce(r + Zeros(n), p) == BitSteps(r, p, n)
    decreases n
  {
    if n == 0 {
      assert r + Zeros(0) == r;
    } else {
      DivStepOfRegister(r, p, n - 1);
      ReduceOfRegister(BitStep(r, p), p, n - 1);
      BitStepsSplit(r, p, 1, n - 1);
      assert BitSteps(r, p, 1) == BitStep(r, p);
    }
  }

  lemma {:induction false} ReduceLeadingZeros(n: nat, d: Word, p: Word)
    requires |p| <= |d|
    ensures Reduce(Zeros(n) + d, p) == Reduce(d, p)
    decreases n
  {
    if n == 0 {
      assert Zeros(0) + d == d;
    } else {
      assert (Zeros(n) + d)[1..] == Zeros(n - 1) + d;
      ReduceLeadingZeros(n - 1, d, p);
    }
  }

  lemma BitStepsLinear(a: Word, b: Word, p: Word, n: nat)
    requires |a| == |b| == |p| > 0
    ensures BitSteps(Xor(a, b), p, n) == Xor(BitSteps(a, p, n), BitSteps(b, p, n))
  {
    ReduceOfRegister(a, p, n);
    ReduceOfRegister(b, p, n);
    ReduceOfRegister(Xor(a, b), p, n);
    XorAppend(a, b, Zeros(n), Zeros(n));
    XorZero(Zeros(n), Zeros(n));
    ReduceLinear(a + Zeros(n), b + Zeros(n), p);
  }

  /** Bits with nothing to cancel above them are only moved up. */
  lemma BitStepsMoveUp(t: Word, p: Word)
    requires |t| + 8 == |p|
    ensures BitSteps(Zeros(8) + t, p, 8) == t + Zeros(8)
  {
    ReduceOfRegister(Zeros(8) + t, p, 8);
    assert Zeros(8) + t + Zeros(8) == Zeros(8) + (t + Zeros(8));
    ReduceLeadingZeros(8, t + Zeros(8), p);
  }

  // ---------- one table lookup is eight bit steps ----------

  lemma TableLookup(p: Word, b: Word)
    requires |p| >= 8 == |b|
    ensures Table(p)[ToNat(b)] == BitSteps(b + Zeros(|p| - 8), p, 8)
  {
    FromNatToNat(b);
  }

  /** The table is exclusive-or linear in its index. */
  lemma TableLinear(p: Word, a: Word, b: Word)
    requires |p| >= 8 == |a| == |b|
    ensures Table(p)[ToNat(Xor(a, b))] == Xor(Table(p)[ToNat(a)], Table(p)[ToNat(b)])
  {
    var z := Zeros(|p| - 8);
    TableLookup(p, a);
    TableLookup(p, b);
    TableLookup(p, Xor(a, b));
    XorAppend(a, b, z, z);
    XorZero(z, z);
    BitStepsLinear(a + z, b + z, p, 8);
  }

  /** The register with the byte added at its top, cut into its two parts. */
  lemma TopAndLow(r: Word, b: Word, w: nat)
    requires |r| == w >= 8 == |b|
    ensures Xor(r, b + Zeros(w - 8)) == Xor(Zeros(8) + r[8..], Xor(r[..8], b) + Zeros(w - 8))
  {
    var z, high, low := Zeros(w - 8), r[..8], r[8..];
    assert r == high + low;
    XorAppend(high, b, low, z);
    XorZero(low, low);
    XorZero(Xor(high, b), Xor(high, b));
    XorAppend(Zeros(8), Xor(high, b), low, z);
  }

  lemma ByteStepIsBitSteps(p: Word, r: Word, b: Word)
    requires |r| == |p| >= 8 == |b|
    ensures ByteStep(Table(p), r, b) == BitSteps(Xor(r, b + Zeros(|p| - 8)), p, 8)
  {
    var z, top, low := Zeros(|p| - 8), Xor(r[..8], b), r[8..];
    TopAndLow(r, b, |p|);
    TableLookup(p, top);
    BitStepsMoveUp(low, p);
    BitStepsLinear(Zeros(8) + low, top + z, p, 8);
    assert Shl(r, 8) == low + Zeros(8);
  }

  // ---------- a run is a division ----------

  lemma DividendPeel(init: Word, b: Word, rest: Word)
    requires |init| >= 8 == |b|
    ensures Dividend(init, b + rest)
         == Xor(Xor(init, b + Zeros(|init| - 8)) + Zeros(8 + |rest|), Zeros(8) + (rest + Zeros(|init|)))
  {
    var w, n := |init|, |rest|;
    var first, later := b + Zeros(w - 8), Zeros(8) + (rest + Zeros(w));
    var z := Zeros(8 + n);
    assert (b + rest) + Zeros(w) == Xor(first + z, later);
    assert init + Zeros(|b + rest|) == init + z;
    XorAssoc(init + z, first + z, later);
    XorAppend(init, first, z, z);
    XorZero(z, z);
  }

  /** The first m of the bit steps can be taken before the division. */
  lemma ReduceRegisterSteps(r: Word, p: Word, m: nat, n: nat)
    requires |r| == |p| > 0
    ensures Reduce(r + Zeros(m + n), p) == Reduce(BitSteps(r, p, m) + Zeros(n), p)
  {
    ReduceOfRegister(r, p, m + n);
    BitStepsSplit(r, p, m, n);
    ReduceOfRegister(BitSteps(r, p, m), p, n);
  }

  /** Whatever register r0 is stepped to, the rest of the message is divided from there. */
  lemma DividendFrom(init: Word, b: Word, rest: Word, p: Word, r0: Word, stepped: Word)
    requires |init| == |p| == |stepped| >= 8 == |b| && r0 == Xor(init, b + Zeros(|p| - 8))
    requires Reduce(r0 + Zeros(8 + |rest|), p) == Reduce(stepped + Zeros(|rest|), p)
    ensures Reduce(Dividend(init, b + rest), p) == Reduce(Dividend(stepped, rest), p)
  {
    var n, tail := |rest|, rest + Zeros(|p|);
    calc {
      Reduce(Dividend(init, b + rest), p);
    == { DividendPeel(init, b, rest); ReduceLinear(r0 + Zeros(8 + n), Zeros(8) + tail, p); }
      Xor(Reduce(r0 + Zeros(8 + n), p), Reduce(Zeros(8) + tail, p));
    == { ReduceLeadingZeros(8, tail, p); }
      Xor(Reduce(stepped + Zeros(n), p), Reduce(tail, p));
    == { ReduceLinear(stepped + Zeros(n), tail, p); }
      Reduce(Dividend(stepped, rest), p);
    }
  }

  lemma ReduceDividendPeel(init: Word, b: Word, rest: Word, p: Word, r0: Word, steps: nat, stepped: Word)
    requires |init| == |p| >= 8 == |b| && r0 == Xor(init, b + Zeros(|p| - 8))
    requires steps == 8 && stepped == BitSteps(r0, p, steps)
    ensures Reduce(Dividend(init, b + rest), p) == Reduce(Dividend(stepped, rest), p)
  {
    ReduceRegisterSteps(r0, p, steps, |rest|);
    DividendFrom(init, b, rest, p, r0, stepped);
  }

  lemma {:induction false} RunIsReduce(p: Word, init: Word, data: seq<bv8>, reflectedInput: bool)
    requires |init| == |p| >= 8
    ensures Run(Table(p), init, data, reflectedInput)
         == Reduce(Dividend(init, MessageBits(data, reflectedInput)), p)
    decreases |data|
  {
    if data == [] {
      assert Dividend(init, []) == init by {
        assert init + Zeros(0) == init && [] + Zeros(|init|) == Zeros(|init|);
        XorZero(init, init);
      }
    } else {
      var b := Fed(data[0], reflectedInput);
      var stepped := ByteStep(Table(p), init, b);
      ByteStepIsBitSteps(p, init, b);
      var r0 := Xor(init, b + Zeros(|p| - 8));
      ReduceDividendPeel(init, b, MessageBits(data[1..], reflectedInput), p, r0, 8, stepped);
      RunIsReduce(p, stepped, data[1..], reflectedInput);
    }
  }

  /**
   * The un-finished register after a message is the remainder of init * x^(8n) + message * x^w modulo x^w + p(x),
   * and no other word is.
   */
  lemma RunIsTheRemainder(p: Word, init: Word, data: seq<bv8>, reflectedInput: bool, r: Word)
    requires |init| == |p| >= 8
    ensures IsRemainder(Dividend(init, MessageBits(data, reflectedInput)), p, r)
       <==> r == Run(Table(p), init, data, reflectedInput)
  {
    RunIsReduce(p, init, data, reflectedInput);
    ReduceIsTheRemainder(Dividend(init, MessageBits(data, reflectedInput)), p, r);
  }

  /** What the output stage makes of a register, bit by bit. */
  ghost predicate Finished(v: Word, r: Word, xorValue: Word, reflectedOutput: bool, finalXor: bool) {
    |v| == |r| == |xorValue|
    && forall i :: 0 <= i < |v| ==> v[i] == (r[if reflectedOutput then |r| - 1 - i else i] != (finalXor && xorValue[i]))
  }

  lemma FinishedUnique(v: Word, r: Word, s: Word, xorValue: Word, reflectedOutput: bool, finalXor: bool)
    requires Finished(v, r, xorValue, reflectedOutput, finalXor) && Finished(v, s, xorValue, reflectedOutput, finalXor)
    ensures r == s
  {
    forall i | 0 <= i < |r| ensures r[i] == s[i] {
      var k := if reflectedOutput then |r| - 1 - i else i;
      assert v[k] == (r[i] != (finalXor && xorValue[k]));
      assert v[k] == (s[i] != (finalXor && xorValue[k]));
    }
  }

  lemma FinishIsFinished(r: Word, xorValue: Word, reflectedOutput: bool, finalXor: bool)
    requires |r| == |xorValue|
    ensures Finished(Finish(r, xorValue, reflectedOutput, finalXor), r, xorValue, reflectedOutput, finalXor)
  {
  }

  /**
   * What the engine returns, for every polynomial, message and setting: the remainder, from the other end if the
   * output is reflected, with the final value added bit by bit if that is asked for. No other word is the remainder.
   */
  lemma ValueIsFinishedRemainder(p: Word, data: seq<bv8>, init: Word, xorValue: Word, reflectedOutput: bool,
                                 reflectedInput: bool, finalXor: bool, r: Word)
    requires |init| == |xorValue| == |p| >= 8
    ensures IsRemainder(Dividend(init, MessageBits(data, reflectedInput)), p, r)
       <==> Finished(Value(Table(p), data, init, xorValue, reflectedOutput, reflectedInput, finalXor),
                     r, xorValue, reflectedOutput, finalXor)
  {
    var s := Run(Table(p), init, data, reflectedInput);
    var v := Value(Table(p), data, init, xorValue, reflectedOutput, reflectedInput, finalXor);
    RunIsTheRemainder(p, init, data, reflectedInput, r);
    assert Finished(v, s, xorValue, reflectedOutput, finalXor) by {
      FinishIsFinished(s, xorValue, reflectedOutput, finalXor);
    }
    if Finished(v, r, xorValue, reflectedOutput, finalXor) {
      FinishedUnique(v, r, s, xorValue, reflectedOutput, finalXor);
    }
  }

  /** The bits of every byte with the lowest first. */
  function BitsLowFirst(data: seq<bv8>): (m: Word)
    ensures |m| == 8 * |data|
  {
    if data == [] then [] else Reverse(Bits8(data[0])) + BitsLowFirst(data[1..])
  }

  /** Unreflected input enters as the byte string's own bits, reflected input with the lowest bit of each byte first. */
  lemma {:induction false} MessageBitsAre(data: seq<bv8>)
    ensures MessageBits(data, false) == BitsOf(data) && MessageBits(data, true) == BitsLowFirst(data)
  {
    if data != [] {
      MessageBitsAre(data[1..]);
    }
  }

  // ---------- chunks ----------

  lemma {:induction false} RunConcat(table: seq<Word>, r: Word, a: seq<bv8>, b: seq<bv8>, reflectedInput: bool)
    requires |r| >= 8 && IsTable(table, |r|)
    ensures Run(table, r, a + b, reflectedInput) == Run(table, Run(table, r, a, reflectedInput), b, reflectedInput)
    decreases |a|
  {
    if a == [] {
      assert a + b == b;
    } else {
      assert (a + b)[1..] == a[1..] + b;
      RunConcat(table, ByteStep(table, r, Fed(a[0], reflectedInput)), a[1..], b, reflectedInput);
    }
  }

  // ---------- which errors go undetected ----------

  /** Bit by bit: the output stage reverses the register first and then adds the final value in its own order. */
  lemma FinishAt(r: Word, xorValue: Word, reflectedOutput: bool, finalXor: bool, i: nat)
    requires |r| == |xorValue| && i < |r|
    ensures Finish(r, xorValue, reflectedOutput, finalXor)[i]
         == (r[if reflectedOutput then |r| - 1 - i else i] != (finalXor && xorValue[i]))
  {
  }

  lemma FinishInjective(r: Word, s: Word, xorValue: Word, reflectedOutput: bool, finalXor: bool)
    requires |r| == |s| == |xorValue|
    ensures Finish(r, xorValue, reflectedOutput, finalXor) == Finish(s, xorValue, reflectedOutput, finalXor) <==> r == s
  {
    if Finish(r, xorValue, reflectedOutput, finalXor) == Finish(s, xorValue, reflectedOutput, finalXor) {
      var r', s' := if reflectedOutput then Reverse(r) else r, if reflectedOutput then Reverse(s) else s;
      assert r' == s' by {
        XorCancel(r', xorValue);
        XorCancel(s', xorValue);
      }
      ReverseReverse(r);
      ReverseReverse(s);
    }
  }

  lemma DividendDifference(init: Word, a: Word, b: Word)
    requires |a| == |b|
    ensures Xor(Dividend(init, a), Dividend(init, b)) == Xor(a, b) + Zeros(|init|)
  {
    var z, w := init + Zeros(|a|), Zeros(|init|);
    XorShuffle(z, a + w, z, b + w);
    XorZero(z, z);
    XorZero(w, w);
    XorAppend(a, b, w, w);
    XorZero(Xor(a + w, b + w), z);
  }

  /**
   * Two messages of one length have the same CRC, whatever the initial value, reflection and final stage,
   * exactly when their difference (shifted past the register) is a multiple of the generator.
   */
  lemma UndetectedIffMultiple(p: Word, init: Word, xorValue: Word, reflectedOutput: bool, reflectedInput: bool,
                              finalXor: bool, a: seq<bv8>, b: seq<bv8>)
    requires |init| == |xorValue| == |p| >= 8 && |a| == |b|
    ensures Value(Table(p), a, init, xorValue, reflectedOutput, reflectedInput, finalXor)
         == Value(Table(p), b, init, xorValue, reflectedOutput, reflectedInput, finalXor)
       <==> IsMultiple(Xor(MessageBits(a, reflectedInput), MessageBits(b, reflectedInput)) + Zeros(|p|), p)
  {
    var ma, mb := MessageBits(a, reflectedInput), MessageBits(b, reflectedInput);
    var ra, rb := Run(Table(p), init, a, reflectedInput), Run(Table(p), init, b, reflectedInput);
    RunIsReduce(p, init, a, reflectedInput);
    RunIsReduce(p, init, b, reflectedInput);
    FinishInjective(ra, rb, xorValue, reflectedOutput, finalXor);
    XorZero(ra, rb);
    ReduceLinear(Dividend(init, ma), Dividend(init, mb), p);
    DividendDifference(init, ma, mb);
    MultipleIffZeroRemainder(Xor(ma, mb) + Zeros(|p|), p);
  }

  /** With an odd polynomial the register can be stepped back, so a nonzero register never dies. */
  lemma {:induction false} NonzeroSurvives(r: Word, p: Word, n: nat)
    requires |r| == |p| > 0 && p[|p| - 1]
    ensures BitSteps(r, p, n) == Zeros(|p|) <==> r == Zeros(|p|)
    decreases n
  {
    if n > 0 {
      var s := BitSteps(r, p, n - 1);
      NonzeroSurvives(r, p, n - 1);
      if BitStep(s, p) == Zeros(|p|) {
        assert !BitStep(s, p)[|p| - 1];
        assert !s[0];
        forall i | 0 <= i < |p| ensures !s[i] {
          if i > 0 {
            assert !BitStep(s, p)[i - 1];
          }
        }
        assert s == Zeros(|p|);
      }
      if s == Zeros(|p|) {
        assert BitStep(s, p) == Zeros(|p|);
      }
    }
  }

  /**
   * Burst detection: with an odd polynomial, two messages whose fed bits differ only inside a window of at most
   * w consecutive bits have different CRCs, whatever the initial value, reflection and final stage.
   */
  lemma BurstDetected(p: Word, init: Word, xorValue: Word, reflectedOutput: bool, reflectedInput: bool,
                      finalXor: bool, a: seq<bv8>, b: seq<bv8>, before: nat, burst: Word, after: nat)
    requires |init| == |xorValue| == |p| >= 8 && p[|p| - 1] && |a| == |b|
    requires |burst| <= |p| && burst != Zeros(|burst|)
    requires |MessageBits(a, reflectedInput)| == before + |burst| + after
    requires Xor(MessageBits(a, reflectedInput), MessageBits(b, reflectedInput))
          == Zeros(before) + burst + Zeros(after)
    ensures Value(Table(p), a, init, xorValue, reflectedOutput, reflectedInput, finalXor)
         != Value(Table(p), b, init, xorValue, reflectedOutput, reflectedInput, finalXor)
  {
    var w := |p|;
    var difference := Xor(MessageBits(a, reflectedInput), MessageBits(b, reflectedInput)) + Zeros(w);
    var register, shifts := burst + Zeros(w - |burst|), after + |burst|;
    assert difference == Zeros(before) + (register + Zeros(shifts));
    ReduceLeadingZeros(before, register + Zeros(shifts), p);
    ReduceOfRegister(register, p, shifts);
    assert register[..|burst|] == burst;
    NonzeroSurvives(register, p, shifts);
    MultipleIffZeroRemainder(difference, p);
    UndetectedIffMultiple(p, init, xorValue, reflectedOutput, reflectedInput, finalXor, a, b);
  }

  lemma FirstStep(p: Word, burst: Word, after: nat)
    requires |burst| == |p| + 1 && |p| > 0 && burst[0]
    ensures DivStep(burst + Zeros(after), p) == Xor(burst[1..], p) + Zeros(after)
  {
    var z := Zeros(after);
    assert (burst + z)[1..] == burst[1..] + z;
    XorAppend(burst[1..], p, z, z);
    XorZero(z, z);
  }

  lemma IsMonic(p: Word, burst: Word)
    requires |burst| == |p| + 1 && burst[0]
    ensures Xor(burst[1..], p) == Zeros(|p|) <==> burst == Monic(p)
  {
    XorZero(burst[1..], p);
    assert burst == [true] + burst[1..];
  }

  lemma LongBurstReduces(p: Word, burst: Word, after: nat)
    requires |burst| == |p| + 1 && |p| > 0 && burst[0] && p[|p| - 1]
    ensures Reduce(burst + Zeros(after), p) == Zeros(|p|) <==> burst == Monic(p)
  {
    var r := Xor(burst[1..], p);
    FirstStep(p, burst, after);
    ReduceOfRegister(r, p, after);
    NonzeroSurvives(r, p, after);
    IsMonic(p, burst);
  }

  lemma ShiftedError(before: nat, burst: Word, after: nat, w: nat)
    ensures Zeros(before) + burst + Zeros(after) + Zeros(w) == Zeros(before) + (burst + Zeros(after + w))
  {
    assert Zeros(after) + Zeros(w) == Zeros(after + w);
  }

  lemma LongBurstRemainder(p: Word, before: nat, shifted: Word, burst: Word, after: nat)
    requires |burst| == |p| + 1 && |p| > 0 && burst[0] && p[|p| - 1] && shifted == burst + Zeros(after)
    ensures Reduce(Zeros(before) + shifted, p) == Zeros(|p|) <==> burst == Monic(p)
  {
    ReduceLeadingZeros(before, shifted, p);
    LongBurstReduces(p, burst, after);
  }

  lemma LongBurstMultiple(p: Word, before: nat, burst: Word, after: nat, difference: Word)
    requires |burst| == |p| + 1 && |p| > 0 && burst[0] && p[|p| - 1]
    requires difference == Zeros(before) + (burst + Zeros(after))
    ensures IsMultiple(difference, p) <==> burst == Monic(p)
  {
    LongBurstRemainder(p, before, burst + Zeros(after), burst, after);
    MultipleIffZeroRemainder(difference, p);
  }

  lemma LongBurstError(p: Word, before: nat, burst: Word, after: nat, error: Word)
    requires |burst| == |p| + 1 && |p| > 0 && burst[0] && p[|p| - 1]
    requires error == Zeros(before) + burst + Zeros(after)
    ensures IsMultiple(error + Zeros(|p|), p) <==> burst == Monic(p)
  {
    ShiftedError(before, burst, after, |p|);
    LongBurstMultiple(p, before, burst, after + |p|, error + Zeros(|p|));
  }

  /**
   * One bit more is too many: of all errors of w + 1 bits that begin with a wrong bit, an odd polynomial misses exactly
   * one, the generator itself.
   */
  lemma LongBurstMissedIff(p: Word, init: Word, xorValue: Word, reflectedOutput: bool, reflectedInput: bool,
                           finalXor: bool, a: seq<bv8>, b: seq<bv8>, before: nat, burst: Word, after: nat)
    requires |init| == |xorValue| == |p| >= 8 && p[|p| - 1] && |a| == |b|
    requires |burst| == |p| + 1 && burst[0]
    requires |MessageBits(a, reflectedInput)| == before + |burst| + after
    requires Xor(MessageBits(a, reflectedInput), MessageBits(b, reflectedInput))
          == Zeros(before) + burst + Zeros(after)
    ensures Value(Table(p), a, init, xorValue, reflectedOutput, reflectedInput, finalXor)
         == Value(Table(p), b, init, xorValue, reflectedOutput, reflectedInput, finalXor)
       <==> burst == Monic(p)
  {
    var error := Xor(MessageBits(a, reflectedInput), MessageBits(b, reflectedInput));
    assert IsMultiple(error + Zeros(|p|), p) <==> burst == Monic(p) by {
      LongBurstError(p, before, burst, after, error);
    }
    UndetectedIffMultiple(p, init, xorValue, reflectedOutput, reflectedInput, finalXor, a, b);
  }

  lemma {:induction false} MessageBitsConcat(a: seq<bv8>, b: seq<bv8>, reflectedInput: bool)
    ensures MessageBits(a + b, reflectedInput) == MessageBits(a, reflectedInput) + MessageBits(b, reflectedInput)
  {
    if a == [] {
      assert a + b == b;
    } else {
      assert (a + b)[1..] == a[1..] + b;
      MessageBitsConcat(a[1..], b, reflectedInput);
    }
  }

  lemma FedInjective(a: bv8, b: bv8, reflectedInput: bool)
    requires Fed(a, reflectedInput) == Fed(b, reflectedInput)
    ensures a == b
  {
    if reflectedInput {
      forall i | 0 <= i < 8 ensures Bits8(a)[i] == Bits8(b)[i] {
        assert Reverse(Bits8(a))[7 - i] == Reverse(Bits8(b))[7 - i];
      }
    }
    Bits8Injective(a, b);
  }

  lemma {:induction false} MessageBitsInjective(a: seq<bv8>, b: seq<bv8>, reflectedInput: bool)
    requires |a| == |b| && MessageBits(a, reflectedInput) == MessageBits(b, reflectedInput)
    ensures a == b
  {
    if a != [] {
      var ma, mb := MessageBits(a, reflectedInput), MessageBits(b, reflectedInput);
      assert Fed(a[0], reflectedInput) == ma[..8] == mb[..8] == Fed(b[0], reflectedInput);
      FedInjective(a[0], b[0], reflectedInput);
      assert MessageBits(a[1..], reflectedInput) == ma[8..] == mb[8..] == MessageBits(b[1..], reflectedInput);
      MessageBitsInjective(a[1..], b[1..], reflectedInput);
    }
  }

  lemma MessageBitsDifference(pre: seq<bv8>, x: seq<bv8>, y: seq<bv8>, post: seq<bv8>, reflectedInput: bool)
    requires |x| == |y|
    ensures Xor(MessageBits(pre + x + post, reflectedInput), MessageBits(pre + y + post, reflectedInput))
         == Zeros(8 * |pre|) + Xor(MessageBits(x, reflectedInput), MessageBits(y, reflectedInput)) + Zeros(8 * |post|)
  {
    var u, v := MessageBits(pre, reflectedInput), MessageBits(post, reflectedInput);
    var mx, my := MessageBits(x, reflectedInput), MessageBits(y, reflectedInput);
    MessageBitsConcat(pre + x, post, reflectedInput);
    MessageBitsConcat(pre, x, reflectedInput);
    MessageBitsConcat(pre + y, post, reflectedInput);
    MessageBitsConcat(pre, y, reflectedInput);
    XorAppend(u + mx, u + my, v, v);
    XorAppend(u, u, mx, my);
    XorZero(u, u);
    XorZero(v, v);
  }

  /** The byte form: different bytes inside a window of at most w/8 bytes always change the CRC. */
  lemma DamagedWindowDetected(p: Word, init: Word, xorValue: Word, reflectedOutput: bool, reflectedInput: bool,
                              finalXor: bool, pre: seq<bv8>, x: seq<bv8>, y: seq<bv8>, post: seq<bv8>)
    requires |init| == |xorValue| == |p| >= 8 && p[|p| - 1]
    requires |x| == |y| && 8 * |x| <= |p| && x != y
    ensures Value(Table(p), pre + x + post, init, xorValue, reflectedOutput, reflectedInput, finalXor)
         != Value(Table(p), pre + y + post, init, xorValue, reflectedOutput, reflectedInput, finalXor)
  {
    var mx, my := MessageBits(x, reflectedInput), MessageBits(y, reflectedInput);
    MessageBitsDifference(pre, x, y, post, reflectedInput);
    XorZero(mx, my);
    if mx == my {
      MessageBitsInjective(x, y, reflectedInput);
    }
    BurstDetected(p, init, xorValue, reflectedOutput, reflectedInput, finalXor,
                  pre + x + post, pre + y + post, 8 * |pre|, Xor(mx, my), 8 * |post|);
  }
}
