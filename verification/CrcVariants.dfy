/**
 * Two wrappers of the 32-bit engine: `Crc32`, whose output stage is gated by `final_crc`, and `Crc32_mpeg2`, which has
 * none. The wrappers' literal tables are taken as the table calculator's output for their common polynomial.
 */
module CrcVariants {
  import opened Bits
  import opened Common
  import opened Crc
  import opened CrcTheory
  import opened CrcCodewords
  import opened CrcReflected
  import opened Gf2

  const POLYNOMIAL: Word := Hex([0x0, 0x4, 0xC, 0x1, 0x1, 0xD, 0xB, 0x7])
  const INITIAL_CRC32_VALUE: Word := Ones(32)
  const FINAL_XOR_VALUE: Word := Ones(32)

  /** The pointer to the last CRC may be NULL, which is None. */
  function Crc32(data: seq<bv8>, finalCrc: bool, lastCrc: Option<Word>): (crc: Word)
    requires lastCrc.Some? ==> |lastCrc.value| == 32
    ensures |crc| == 32
  {
    var init := if lastCrc.Some? then lastCrc.value else INITIAL_CRC32_VALUE;
    Value(Table(POLYNOMIAL), data, init, FINAL_XOR_VALUE, finalCrc, true, finalCrc)
  }

  function Crc32Mpeg2(data: seq<bv8>, lastCrc: Option<Word>): (crc: Word)
    requires lastCrc.Some? ==> |lastCrc.value| == 32
    ensures |crc| == 32
  {
    var init := if lastCrc.Some? then lastCrc.value else INITIAL_CRC32_VALUE;
    Value(Table(POLYNOMIAL), data, init, Zeros(32), false, false, false)
  }

  function Flatten(chunks: seq<seq<bv8>>): seq<bv8> {
    if chunks == [] then [] else chunks[0] + Flatten(chunks[1..])
  }

  /** A caller that passes each result to the next call, asking for the output stage only on the last chunk. */
  function Crc32Chunked(chunks: seq<seq<bv8>>, lastCrc: Option<Word>): (crc: Word)
    requires chunks != [] && (lastCrc.Some? ==> |lastCrc.value| == 32)
    ensures |crc| == 32
    decreases |chunks|
  {
    if |chunks| == 1 then Crc32(chunks[0], true, lastCrc)
    else Crc32Chunked(chunks[1..], Some(Crc32(chunks[0], false, lastCrc)))
  }

  function Crc32Mpeg2Chunked(chunks: seq<seq<bv8>>, lastCrc: Option<Word>): (crc: Word)
    requires chunks != [] && (lastCrc.Some? ==> |lastCrc.value| == 32)
    ensures |crc| == 32
    decreases |chunks|
  {
    if |chunks| == 1 then Crc32Mpeg2(chunks[0], lastCrc)
    else Crc32Mpeg2Chunked(chunks[1..], Some(Crc32Mpeg2(chunks[0], lastCrc)))
  }

  /** Every way of cutting a message into chunks, empty ones included, gives the CRC of the whole. */
  lemma {:induction false} Crc32ChunkedIsWhole(chunks: seq<seq<bv8>>, lastCrc: Option<Word>)
    requires chunks != [] && (lastCrc.Some? ==> |lastCrc.value| == 32)
    ensures Crc32Chunked(chunks, lastCrc) == Crc32(Flatten(chunks), true, lastCrc)
    decreases |chunks|
  {
    if |chunks| == 1 {
      assert Flatten(chunks) == chunks[0];
    } else {
      var next := Crc32(chunks[0], false, lastCrc);
      var init := if lastCrc.Some? then lastCrc.value else INITIAL_CRC32_VALUE;
      Crc32ChunkedIsWhole(chunks[1..], Some(next));
      RunConcat(Table(POLYNOMIAL), init, chunks[0], Flatten(chunks[1..]), true);
    }
  }

  lemma {:induction false} Crc32Mpeg2ChunkedIsWhole(chunks: seq<seq<bv8>>, lastCrc: Option<Word>)
    requires chunks != [] && (lastCrc.Some? ==> |lastCrc.value| == 32)
    ensures Crc32Mpeg2Chunked(chunks, lastCrc) == Crc32Mpeg2(Flatten(chunks), lastCrc)
    decreases |chunks|
  {
    if |chunks| == 1 {
      assert Flatten(chunks) == chunks[0];
    } else {
      var init := if lastCrc.Some? then lastCrc.value else INITIAL_CRC32_VALUE;
      Crc32Mpeg2ChunkedIsWhole(chunks[1..], Some(Crc32Mpeg2(chunks[0], lastCrc)));
      RunConcat(Table(POLYNOMIAL), init, chunks[0], Flatten(chunks[1..]), false);
    }
  }

  lemma PolynomialsAgree()
    ensures Reverse(POLYNOMIAL) == RFC1952_POLYNOMIAL
  {
    var a: seq<nat>, b: seq<nat> := [0x0, 0x4, 0xC, 0x1, 0x1, 0xD, 0xB, 0x7], [0xE, 0xD, 0xB, 0x8, 0x8, 0x3, 0x2, 0x0];
    ReverseHex(a, b);
  }

  /** `Crc32` of a whole message is the checksum that section 8 of RFC 1952 defines. */
  lemma Crc32IsRfc1952(data: seq<bv8>)
    ensures Crc32(data, true, None) == Rfc1952Crc(data)
  {
    ReflectedRunIsLsbRun(POLYNOMIAL, INITIAL_CRC32_VALUE, data);
    PolynomialsAgree();
    LsbTableRunIsLsbRun(Ones(32), data, RFC1952_POLYNOMIAL);
    assert Reverse(Ones(32)) == Ones(32);
  }

  /** The constants as numbers. */
  lemma PolynomialNumbers()
    ensures ToNat(POLYNOMIAL) == 0x04C1_1DB7 && ToNat(RFC1952_POLYNOMIAL) == 0xEDB8_8320
  {
    EightDigits(0x0, 0x4, 0xC, 0x1, 0x1, 0xD, 0xB, 0x7);
    EightDigits(0xE, 0xD, 0xB, 0x8, 0x8, 0x3, 0x2, 0x0);
  }

  lemma FourDigits(before: seq<nat>, n: nat, a: nat, b: nat, c: nat, d: nat)
    requires ToNat(Hex(before)) == n && a < 16 && b < 16 && c < 16 && d < 16
    ensures ToNat(Hex(before + [a] + [b] + [c] + [d])) == 0x1_0000 * n + 0x1000 * a + 0x100 * b + 0x10 * c + d
  {
    HexNumber(before, a, n);
    HexNumber(before + [a], b, 16 * n + a);
    HexNumber(before + [a] + [b], c, 16 * (16 * n + a) + b);
    HexNumber(before + [a] + [b] + [c], d, 16 * (16 * (16 * n + a) + b) + c);
  }

  lemma EightDigits(a: nat, b: nat, c: nat, d: nat, e: nat, f: nat, g: nat, h: nat)
    requires a < 16 && b < 16 && c < 16 && d < 16 && e < 16 && f < 16 && g < 16 && h < 16
    ensures ToNat(Hex([a, b, c, d, e, f, g, h]))
         == 0x1_0000 * (0x1000 * a + 0x100 * b + 0x10 * c + d) + 0x1000 * e + 0x100 * f + 0x10 * g + h
  {
    var high: seq<nat> := [] + [a] + [b] + [c] + [d];
    assert ToNat(Hex([])) == 0;
    FourDigits([], 0, a, b, c, d);
    FourDigits(high, 0x1000 * a + 0x100 * b + 0x10 * c + d, e, f, g, h);
    assert high + [e] + [f] + [g] + [h] == [a, b, c, d, e, f, g, h];
  }

  /** `Crc32_mpeg2` is the remainder for the message's own bits, from all ones or from the last CRC. */
  lemma Crc32Mpeg2IsRemainder(data: seq<bv8>, lastCrc: Option<Word>, init: Word, crc: Word)
    requires lastCrc.Some? ==> |lastCrc.value| == 32
    requires init == (if lastCrc.Some? then lastCrc.value else Ones(32))
    ensures IsRemainder(Dividend(init, BitsOf(data)), POLYNOMIAL, crc) <==> crc == Crc32Mpeg2(data, lastCrc)
  {
    MessageBitsAre(data);
    RunIsTheRemainder(POLYNOMIAL, init, data, false, crc);
  }

  /** `Crc32` without its output stage is the remainder for the message with the lowest bit of each byte first. */
  lemma UnfinishedCrc32IsRemainder(data: seq<bv8>, lastCrc: Option<Word>, init: Word, crc: Word)
    requires lastCrc.Some? ==> |lastCrc.value| == 32
    requires init == (if lastCrc.Some? then lastCrc.value else Ones(32))
    ensures IsRemainder(Dividend(init, BitsLowFirst(data)), POLYNOMIAL, crc) <==> crc == Crc32(data, false, lastCrc)
  {
    MessageBitsAre(data);
    RunIsTheRemainder(POLYNOMIAL, init, data, true, crc);
  }

  lemma OutputStage(r: Word, ones: Word, i: nat)
    requires |r| == |ones| == 32 && i < 32 && ones[i]
    ensures Finish(r, ones, true, true)[i] == !Finish(r, ones, false, false)[31 - i]
  {
    FinishAt(r, ones, true, true, i);
    FinishAt(r, ones, false, false, 31 - i);
  }

  /** `final_crc` reverses that register and complements it, from any last CRC. */
  lemma FinalCrcIsComplement(data: seq<bv8>, lastCrc: Option<Word>, i: nat)
    requires (lastCrc.Some? ==> |lastCrc.value| == 32) && i < 32
    ensures Crc32(data, true, lastCrc)[i] == !Crc32(data, false, lastCrc)[31 - i]
  {
    var init := if lastCrc.Some? then lastCrc.value else INITIAL_CRC32_VALUE;
    OutputStage(Run(Table(POLYNOMIAL), init, data, true), FINAL_XOR_VALUE, i);
  }

  // ---------- a message with its own checksum behind it ----------

  /** A checksum as four bytes, low byte first. */
  function LowFirst(crc: Word): (tail: seq<bv8>)
    requires |crc| == 32
    ensures |tail| == 4
  {
    [ByteOf(crc[24..]), ByteOf(crc[16..24]), ByteOf(crc[8..16]), ByteOf(crc[..8])]
  }

  lemma PairFeeds(high: Word, low: Word)
    requires |high| == |low| == 8
    ensures MessageBits([ByteOf(low), ByteOf(high)], true) == Reverse(high + low)
  {
    ByteOfBits(low);
    ByteOfBits(high);
    ReverseConcat(high, low);
    assert [ByteOf(low), ByteOf(high)][1..] == [ByteOf(high)] && [ByteOf(high)][1..] == [];
  }

  lemma HalvesFeed(first: Word, second: Word, third: Word, last: Word)
    requires |first| == |second| == |third| == |last| == 8
    ensures MessageBits([ByteOf(last), ByteOf(third)] + [ByteOf(second), ByteOf(first)], true)
         == Reverse(first + second + (third + last))
  {
    MessageBitsConcat([ByteOf(last), ByteOf(third)], [ByteOf(second), ByteOf(first)], true);
    PairFeeds(third, last);
    PairFeeds(first, second);
    ReverseConcat(first + second, third + last);
  }

  /** Fed low byte first with every byte reversed, the checksum enters the division in reverse. */
  lemma LowFirstFeeds(crc: Word)
    requires |crc| == 32
    ensures MessageBits(LowFirst(crc), true) == Reverse(crc)
  {
    var first, second, third, last := crc[..8], crc[8..16], crc[16..24], crc[24..];
    HalvesFeed(first, second, third, last);
    assert LowFirst(crc) == [ByteOf(last), ByteOf(third)] + [ByteOf(second), ByteOf(first)];
    assert crc == first + second + (third + last);
  }

  /** The checksum of every message with its own checksum behind it. */
  const RESIDUE: Word := Finish(BitSteps(Ones(32), POLYNOMIAL, 32), FINAL_XOR_VALUE, true, true)

  lemma SumOfOwn(r: Word, crc: Word)
    requires |r| == 32 && crc == Finish(r, FINAL_XOR_VALUE, true, true)
    ensures Xor(r, Reverse(crc)) == Ones(32)
  {
  }

  lemma OtherSum(r: Word, a: Word, b: Word)
    requires |r| == |a| == |b| && Xor(r, a) == Xor(r, b)
    ensures a == b
  {
    forall i | 0 <= i < |r| ensures a[i] == b[i] {
      assert Xor(r, a)[i] == Xor(r, b)[i];
    }
  }

  lemma PolynomialIsOdd()
    ensures POLYNOMIAL[31]
  {
    HexLast([0x0, 0x4, 0xC, 0x1, 0x1, 0xD, 0xB], 0x7);
    assert [0x0, 0x4, 0xC, 0x1, 0x1, 0xD, 0xB] + [0x7] == [0x0, 0x4, 0xC, 0x1, 0x1, 0xD, 0xB, 0x7];
  }

  lemma ValueOfTail(r: Word, tail: seq<bv8>, sum: Word)
    requires |r| == 32 && |tail| == 4 && sum == Xor(r, MessageBits(tail, true))
    ensures Finish(Run(Table(POLYNOMIAL), r, tail, true), FINAL_XOR_VALUE, true, true) == RESIDUE <==> sum == Ones(32)
  {
    RunOfSum(POLYNOMIAL, r, tail, true, sum);
    PolynomialIsOdd();
    StepsInjective(POLYNOMIAL, sum, Ones(32), 32);
    FinishInjective(BitSteps(sum, POLYNOMIAL, 32), BitSteps(Ones(32), POLYNOMIAL, 32), FINAL_XOR_VALUE, true, true);
  }

  /**
   * Whatever the message and the initial value: four bytes behind the message make the checksum of the whole one and
   * the same constant exactly when they are the message's own checksum, low byte first.
   */
  lemma ResidueIff(data: seq<bv8>, tail: seq<bv8>, lastCrc: Option<Word>)
    requires |tail| == 4 && (lastCrc.Some? ==> |lastCrc.value| == 32)
    ensures Crc32(data + tail, true, lastCrc) == RESIDUE <==> tail == LowFirst(Crc32(data, true, lastCrc))
  {
    var init := if lastCrc.Some? then lastCrc.value else INITIAL_CRC32_VALUE;
    var r, crc, m := Run(Table(POLYNOMIAL), init, data, true), Crc32(data, true, lastCrc), MessageBits(tail, true);
    RunConcat(Table(POLYNOMIAL), init, data, tail, true);
    ValueOfTail(r, tail, Xor(r, m));
    SumOfOwn(r, crc);
    LowFirstFeeds(crc);
    if Xor(r, m) == Ones(32) {
      OtherSum(r, m, Reverse(crc));
      MessageBitsInjective(tail, LowFirst(crc), true);
    }
  }
}
