/**
 * The table-driven CRC engine, one model for the 8, 16 and 32 bit register widths: the width is the length of the
 * polynomial word. Registers shift left, the most significant bit is the next coefficient to cancel.
 */
module Crc {
  import opened Bits
  import opened BitManipulation

  // ---------- what the engine computes ----------

  /** One iteration of the table calculator's inner loop. */
  function BitStep(r: Word, p: Word): (r': Word)
    requires |r| == |p| > 0
    ensures |r'| == |p|
  {
    if r[0] then Xor(Shl(r, 1), p) else Shl(r, 1)
  }

  function BitSteps(r: Word, p: Word, n: nat): (r': Word)
    requires |r| == |p| > 0
    ensures |r'| == |p|
    decreases n, p  // p is listed so that a literal count is not unrolled
  {
    if n == 0 then r else BitStep(BitSteps(r, p, n - 1), p)
  }

  function TableEntry(p: Word, dividend: nat): (r: Word)
    requires |p| >= 8
    ensures |r| == |p|
  {
    BitSteps(FromNat(dividend, 8) + Zeros(|p| - 8), p, 8)
  }

  ghost predicate IsTable(table: seq<Word>, w: nat) {
    |table| == 256 && forall d :: 0 <= d < 256 ==> |table[d]| == w
  }

  function Table(p: Word): (t: seq<Word>)
    requires |p| >= 8
    ensures IsTable(t, |p|)
  {
    seq(256, d requires 0 <= d < 256 => TableEntry(p, d))
  }

  /** The bits of a data byte in the order in which they enter the division. */
  function Fed(b: bv8, reflectedInput: bool): (r: Word)
    ensures |r| == 8
  {
    if reflectedInput then Reverse(Bits8(b)) else Bits8(b)
  }

  function ByteStep(table: seq<Word>, r: Word, b: Word): (r': Word)
    requires |r| >= 8 == |b| && IsTable(table, |r|)
    ensures |r'| == |r|
  {
    Xor(Shl(r, 8), table[ToNat(Xor(r[..8], b))])
  }

  function Run(table: seq<Word>, r: Word, data: seq<bv8>, reflectedInput: bool): (r': Word)
    requires |r| >= 8 && IsTable(table, |r|)
    ensures |r'| == |r|
    decreases |data|
  {
    if data == [] then r
    else Run(table, ByteStep(table, r, Fed(data[0], reflectedInput)), data[1..], reflectedInput)
  }

  function Finish(r: Word, xorValue: Word, reflectedOutput: bool, finalXor: bool): (r': Word)
    requires |r| == |xorValue|
    ensures |r'| == |r|
  {
    var o := if reflectedOutput then Reverse(r) else r;
    if finalXor then Xor(o, xorValue) else o
  }

  function Value(table: seq<Word>, data: seq<bv8>, init: Word, xorValue: Word,
                 reflectedOutput: bool, reflectedInput: bool, finalXor: bool): (r: Word)
    requires |init| == |xorValue| >= 8 && IsTable(table, |init|)
    ensures |r| == |init|
  {
    Finish(Run(table, init, data, reflectedInput), xorValue, reflectedOutput, finalXor)
  }

  // ---------- the engine ----------

  method TableCalculator(polynomial: Word, crcTable: array<Word>)
    requires |polynomial| >= 8 && crcTable.Length == 256
    modifies crcTable
    ensures crcTable[..] == Table(polynomial)
  {
    for dividend := 0 to 256
      invariant forall d :: 0 <= d < dividend ==> crcTable[d] == TableEntry(polynomial, d)
    {
      var residue := FromNat(dividend, 8) + Zeros(|polynomial| - 8);
      ghost var start := residue;
      for bit := 0 to 8
        invariant residue == BitSteps(start, polynomial, bit)
      {
        if !residue[0] {
          residue := Shl(residue, 1);
        } else {
          residue := Xor(Shl(residue, 1), polynomial);
        }
      }
      crcTable[dividend] := residue;
    }
  }

  /** The branch that picks the byte to feed: the cast back to 8 bits drops the 24 zero bits above it. */
  method InputByte(b: bv8, reflectedInput: bool) returns (temp: Word)
    ensures temp == Fed(b, reflectedInput)
  {
    temp := Bits8(b);
    if reflectedInput {
      var reflection := Reflect(Zeros(24) + temp, 8);
      ReflectedNarrow(temp);
      temp := reflection[24..];
    }
  }

  /** The output stage, shared by all widths. */
  method Output(r: Word, xorValue: Word, reflectedOutput: bool, finalXor: bool) returns (crc: Word)
    requires |r| == |xorValue| <= 32
    ensures crc == Finish(r, xorValue, reflectedOutput, finalXor)
  {
    crc := r;
    if reflectedOutput {
      var reflection := Reflect(Zeros(32 - |crc|) + crc, |crc|);
      ReflectedNarrow(crc);
      crc := reflection[32 - |crc|..];
    }
    if finalXor {
      crc := Xor(crc, xorValue);
    }
  }

  /** Crc16Base and Crc32Base: the index is the register's top byte exclusive-ored with the data byte. */
  method Base(crcTable: array<Word>, data: seq<bv8>, init: Word, xorValue: Word,
              reflectedOutput: bool, reflectedInput: bool, finalXor: bool) returns (crc: Word)
    requires 8 <= |init| == |xorValue| <= 32 && IsTable(crcTable[..], |init|)
    ensures crc == Value(crcTable[..], data, init, xorValue, reflectedOutput, reflectedInput, finalXor)
  {
    crc := init;
    for counter := 0 to |data|
      invariant |crc| == |init|
      invariant Run(crcTable[..], crc, data[counter..], reflectedInput) == Run(crcTable[..], init, data, reflectedInput)
    {
      var temp := InputByte(data[counter], reflectedInput);
      var top := Shr(crc, |crc| - 8)[|crc| - 8..];
      assert top == crc[..8];
      assert data[counter..][1..] == data[counter + 1..];
      crc := Xor(Shl(crc, 8), crcTable[ToNat(Xor(top, temp))]);
    }
    crc := Output(crc, xorValue, reflectedOutput, finalXor);
  }

  /** Crc8Base: the whole register is the index, and the table entry replaces it. */
  method Base8(crcTable: array<Word>, data: seq<bv8>, init: Word, xorValue: Word,
               reflectedOutput: bool, reflectedInput: bool, finalXor: bool) returns (crc: Word)
    requires |init| == |xorValue| == 8 && IsTable(crcTable[..], 8)
    ensures crc == Value(crcTable[..], data, init, xorValue, reflectedOutput, reflectedInput, finalXor)
  {
    crc := init;
    for counter := 0 to |data|
      invariant |crc| == 8
      invariant Run(crcTable[..], crc, data[counter..], reflectedInput) == Run(crcTable[..], init, data, reflectedInput)
    {
      var temp := InputByte(data[counter], reflectedInput);
      assert data[counter..][1..] == data[counter + 1..];
      ShiftedOut(crcTable[..], crc, temp);
      crc := Xor(crc, temp);
      crc := crcTable[ToNat(crc)];
    }
    crc := Output(crc, xorValue, reflectedOutput, finalXor);
  }

  lemma ShiftedOut(table: seq<Word>, r: Word, b: Word)
    requires |r| == |b| == 8 && IsTable(table, 8)
    ensures ByteStep(table, r, b) == table[ToNat(Xor(r, b))]
  {
    assert r[..8] == r;
    assert Shl(r, 8) == Zeros(8);
    XorZero(table[ToNat(Xor(r, b))], r);
  }
}
