/** Base64 encoding and decoding, against the bit-level definition of section 4 of RFC 4648. */
module Base64 {
  import opened Bits
  import opened Common
  import opened Overlay

  const PAD: bv8 := 61 // '='

  /** base64_table: the ASCII code of each of the 64 digits. */
  function Digit(i: bv8): (c: bv8)
    requires i < 64
  {
    if i < 26 then 65 + i else if i < 52 then 71 + i else if i < 62 then i - 4 else if i == 62 then 43 else 47
  }

  /** base64_index: 62 or 63 for four characters outside the alphabet, `-`, `.`, `,` and `_`, and 0 for all others. */
  function Index(c: bv8): (i: bv32)
    ensures i < 64
  {
    if c == 43 || c == 45 || c == 46 then 62
    else if c == 44 || c == 47 || c == 95 then 63
    else if 48 <= c <= 57 then (c + 4) as bv32
    else if 65 <= c <= 90 then (c - 65) as bv32
    else if 97 <= c <= 122 then (c - 71) as bv32
    else 0
  }

  // ---------- the definition ----------

  /** The number that six bits denote. */
  function Six(b5: bool, b4: bool, b3: bool, b2: bool, b1: bool, b0: bool): (i: bv8)
    ensures i < 64
  {
    (if b5 then 32 else 0) | (if b4 then 16 else 0) | (if b3 then 8 else 0)
    | (if b2 then 4 else 0) | (if b1 then 2 else 0) | (if b0 then 1 else 0)
  }

  function Sextet(bits: Word): (i: bv8)
    requires |bits| == 6
    ensures i < 64
  {
    Six(bits[0], bits[1], bits[2], bits[3], bits[4], bits[5])
  }

  /** The bit string cut into groups of six, the last one filled up with zero bits. */
  function Groups(bits: Word): (r: seq<bv8>) {
    if bits == [] then []
    else if |bits| < 6 then [Digit(Sextet(bits + Zeros(6 - |bits|)))]
    else [Digit(Sextet(bits[..6]))] + Groups(bits[6..])
  }

  function Padding(n: nat): (r: seq<bv8>)
    ensures |r| == n
  {
    seq(n, _ => PAD)
  }

  function Encoded(data: seq<bv8>): (r: seq<bv8>) {
    Groups(BitsOf(data)) + Padding((3 - |data| % 3) % 3)
  }

  /** 4 * ceil(n / 3) */
  function EncodedLength(n: nat): nat {
    4 * ((n + 2) / 3)
  }

  // ---------- the definition, three bytes at a time ----------

  function Quad(a: bv8, b: bv8, c: bv8): (r: seq<bv8>)
    ensures |r| == 4
  {
    [Digit(a >> 2), Digit(((a & 0x03) << 4) | (b >> 4)), Digit(((b & 0x0F) << 2) | (c >> 6)), Digit(c & 0x3F)]
  }

  function LastQuad(data: seq<bv8>): (r: seq<bv8>)
    requires 0 < |data| < 3
    ensures |r| == 4
  {
    if |data| == 1 then [Digit(data[0] >> 2), Digit((data[0] & 0x03) << 4), PAD, PAD]
    else [Digit(data[0] >> 2), Digit(((data[0] & 0x03) << 4) | (data[1] >> 4)), Digit((data[1] & 0x0F) << 2), PAD]
  }

  lemma Six1(a: bv8)
    ensures Six(a & 0x80 != 0, a & 0x40 != 0, a & 0x20 != 0, a & 0x10 != 0, a & 0x08 != 0, a & 0x04 != 0) == a >> 2
  {
  }

  lemma Six2(a: bv8, b: bv8)
    ensures Six(a & 0x02 != 0, a & 0x01 != 0, b & 0x80 != 0, b & 0x40 != 0, b & 0x20 != 0, b & 0x10 != 0)
         == ((a & 0x03) << 4) | (b >> 4)
  {
  }

  lemma Six3(b: bv8, c: bv8)
    ensures Six(b & 0x08 != 0, b & 0x04 != 0, b & 0x02 != 0, b & 0x01 != 0, c & 0x80 != 0, c & 0x40 != 0)
         == ((b & 0x0F) << 2) | (c >> 6)
  {
  }

  lemma Six4(c: bv8)
    ensures Six(c & 0x20 != 0, c & 0x10 != 0, c & 0x08 != 0, c & 0x04 != 0, c & 0x02 != 0, c & 0x01 != 0) == c & 0x3F
  {
  }

  lemma Sextet1(a: bv8)
    ensures Sextet(Bits8(a)[..6]) == a >> 2
  {
    Six1(a);
  }

  lemma Sextet2(a: bv8, b: bv8)
    ensures Sextet(Bits8(a)[6..] + Bits8(b)[..4]) == ((a & 0x03) << 4) | (b >> 4)
  {
    Six2(a, b);
  }

  lemma Sextet3(b: bv8, c: bv8)
    ensures Sextet(Bits8(b)[4..] + Bits8(c)[..2]) == ((b & 0x0F) << 2) | (c >> 6)
  {
    Six3(b, c);
  }

  lemma Sextet4(c: bv8)
    ensures Sextet(Bits8(c)[2..]) == c & 0x3F
  {
    Six4(c);
  }

  lemma GroupsCons(six: Word, rest: Word)
    requires |six| == 6
    ensures Groups(six + rest) == [Digit(Sextet(six))] + Groups(rest)
  {
    assert (six + rest)[..6] == six && (six + rest)[6..] == rest;
  }

  lemma GroupsOfTwo(s1: Word, s2: Word, rest: Word, r: seq<bv8>)
    requires |s1| == |s2| == 6 && r == Groups(rest)
    ensures Groups(s1 + (s2 + rest)) == [Digit(Sextet(s1)), Digit(Sextet(s2))] + r
  {
    GroupsCons(s1, s2 + rest);
    GroupsCons(s2, rest);
  }

  lemma GroupsOfFour(s1: Word, s2: Word, s3: Word, s4: Word, rest: Word, r: seq<bv8>)
    requires |s1| == |s2| == |s3| == |s4| == 6 && r == Groups(rest)
    ensures Groups(s1 + (s2 + (s3 + (s4 + rest))))
         == [Digit(Sextet(s1)), Digit(Sextet(s2)), Digit(Sextet(s3)), Digit(Sextet(s4))] + r
  {
    GroupsOfTwo(s3, s4, rest, r);
    GroupsOfTwo(s1, s2, s3 + (s4 + rest), [Digit(Sextet(s3)), Digit(Sextet(s4))] + r);
  }

  lemma Regroup(x: Word, y: Word, z: Word, rest: Word)
    requires |x| == |y| == |z| == 8
    ensures x + y + z + rest == x[..6] + (x[6..] + y[..4] + (y[4..] + z[..2] + (z[2..] + rest)))
  {
  }

  lemma GroupsOfThree(a: bv8, b: bv8, c: bv8, rest: Word)
    ensures Groups(Bits8(a) + Bits8(b) + Bits8(c) + rest) == Quad(a, b, c) + Groups(rest)
  {
    var x, y, z := Bits8(a), Bits8(b), Bits8(c);
    Regroup(x, y, z, rest);
    GroupsOfFour(x[..6], x[6..] + y[..4], y[4..] + z[..2], z[2..], rest, Groups(rest));
    Sextet1(a);
    Sextet2(a, b);
    Sextet3(b, c);
    Sextet4(c);
  }

  lemma Associate(x: Word, y: Word, z: Word, rest: Word)
    ensures x + (y + (z + rest)) == x + y + z + rest
  {
  }

  lemma BitsOfNext(data: seq<bv8>, i: nat, rest: Word)
    requires i < |data| && rest == BitsOf(data[i + 1..])
    ensures BitsOf(data[i..]) == Bits8(data[i]) + rest
  {
    assert data[i..][1..] == data[i + 1..];
  }

  lemma BitsOfThree(data: seq<bv8>, x: Word, y: Word, z: Word, rest: Word)
    requires |data| >= 3 && rest == BitsOf(data[3..])
    requires x == Bits8(data[0]) && y == Bits8(data[1]) && z == Bits8(data[2])
    ensures BitsOf(data[0..]) == x + (y + (z + rest))
  {
    BitsOfNext(data, 2, rest);
    BitsOfNext(data, 1, z + rest);
    BitsOfNext(data, 0, y + (z + rest));
  }

  /** Three bytes become four digits, whatever follows. */
  lemma GroupsPeel(data: seq<bv8>)
    requires |data| >= 3
    ensures Groups(BitsOf(data)) == Quad(data[0], data[1], data[2]) + Groups(BitsOf(data[3..]))
  {
    var x, y, z, rest := Bits8(data[0]), Bits8(data[1]), Bits8(data[2]), BitsOf(data[3..]);
    BitsOfThree(data, x, y, z, rest);
    assert data[0..] == data;
    Associate(x, y, z, rest);
    GroupsOfThree(data[0], data[1], data[2], rest);
  }

  lemma SameThirds(n: nat)
    requires n >= 3
    ensures (n - 3) % 3 == n % 3
  {
  }

  lemma ConcatTwice(a: seq<bv8>, b: seq<bv8>, c: seq<bv8>)
    ensures a + b + c == a + (b + c)
  {
  }

  lemma EncodedPeel(data: seq<bv8>)
    requires |data| >= 3
    ensures Encoded(data) == Quad(data[0], data[1], data[2]) + Encoded(data[3..])
  {
    var quad, groups := Quad(data[0], data[1], data[2]), Groups(BitsOf(data[3..]));
    assert Groups(BitsOf(data)) == quad + groups by {
      GroupsPeel(data);
    }
    SameThirds(|data|);
    ConcatTwice(quad, groups, Padding((3 - |data| % 3) % 3));
  }

  lemma GroupsLast(bits: Word)
    requires 0 < |bits| < 6
    ensures Groups(bits) == [Digit(Sextet(bits + Zeros(6 - |bits|)))]
  {
  }

  lemma SextetTails(a: bv8)
    ensures Sextet(Bits8(a)[6..] + Zeros(4)) == (a & 0x03) << 4
    ensures Sextet(Bits8(a)[4..] + Zeros(2)) == (a & 0x0F) << 2
  {
    Sextet2(a, 0);
    Sextet3(a, 0);
    assert Zeros(4) == Bits8(0)[..4] && Zeros(2) == Bits8(0)[..2];
  }

  lemma GroupsLastOne(a: bv8)
    ensures Groups(BitsOf([a])) == [Digit(a >> 2), Digit((a & 0x03) << 4)]
  {
    var x := Bits8(a);
    assert BitsOf([a]) == x[..6] + x[6..] by {
      assert [a][1..] == [];
    }
    GroupsCons(x[..6], x[6..]);
    GroupsLast(x[6..]);
    Sextet1(a);
    SextetTails(a);
  }

  lemma GroupsOfLastTwo(x: Word, y: Word)
    requires |x| == |y| == 8
    ensures Groups(x + y)
         == [Digit(Sextet(x[..6])), Digit(Sextet(x[6..] + y[..4])), Digit(Sextet(y[4..] + Zeros(2)))]
  {
    var s1, s2 := x[..6], x[6..] + y[..4];
    assert x + y == s1 + (s2 + y[4..]);
    GroupsLast(y[4..]);
    GroupsOfTwo(s1, s2, y[4..], Groups(y[4..]));
  }

  lemma GroupsLastTwo(a: bv8, b: bv8)
    ensures Groups(BitsOf([a, b]))
         == [Digit(a >> 2), Digit(((a & 0x03) << 4) | (b >> 4)), Digit((b & 0x0F) << 2)]
  {
    assert BitsOf([a, b]) == Bits8(a) + Bits8(b) by {
      assert [a, b][1..] == [b] && [b][1..] == [];
    }
    GroupsOfLastTwo(Bits8(a), Bits8(b));
    Sextet1(a);
    Sextet2(a, b);
    SextetTails(b);
  }

  lemma EncodedOne(a: bv8)
    ensures Encoded([a]) == LastQuad([a])
  {
    GroupsLastOne(a);
    assert Padding(2) == [PAD, PAD];
  }

  lemma EncodedTwo(a: bv8, b: bv8)
    ensures Encoded([a, b]) == LastQuad([a, b])
  {
    GroupsLastTwo(a, b);
    assert Padding(1) == [PAD];
  }

  lemma EncodedShort(data: seq<bv8>)
    requires |data| < 3
    ensures Encoded(data) == if data == [] then [] else LastQuad(data)
  {
    if |data| == 1 {
      assert data == [data[0]];
      EncodedOne(data[0]);
    } else if |data| == 2 {
      assert data == [data[0], data[1]];
      EncodedTwo(data[0], data[1]);
    } else {
      assert BitsOf([]) == [] && Padding(0) == [];
    }
  }

  /** The encoding, group by group. */
  function Quads(data: seq<bv8>): (r: seq<bv8>)
    ensures |r| == EncodedLength(|data|)
  {
    if data == [] then []
    else if |data| < 3 then LastQuad(data)
    else Quad(data[0], data[1], data[2]) + Quads(data[3..])
  }

  lemma {:induction false} QuadsAreEncoding(data: seq<bv8>)
    ensures Quads(data) == Encoded(data)
    decreases |data|
  {
    if |data| < 3 {
      EncodedShort(data);
    } else {
      EncodedPeel(data);
      QuadsAreEncoding(data[3..]);
    }
  }

  // ---------- Base64_encode ----------

  /** The length guard in wrapping 64-bit arithmetic. */
  function GuardedLength(n: nat): nat {
    4 * ((n + 2) % SIZE_MODULUS / 3) % SIZE_MODULUS
  }

  /** It rejects exactly the lengths whose encoding is too long for a size_t. */
  lemma GuardIsExact(n: nat)
    requires n < SIZE_MODULUS
    ensures GuardedLength(n) < n <==> EncodedLength(n) >= SIZE_MODULUS
  {
    if n + 2 < SIZE_MODULUS {
      assert (n + 2) % SIZE_MODULUS == n + 2;
      var length := EncodedLength(n);
      assert n <= length < 2 * SIZE_MODULUS;
      assert length % SIZE_MODULUS == if length < SIZE_MODULUS then length else length - SIZE_MODULUS;
    } else {
      assert (n + 2) % SIZE_MODULUS == n + 2 - SIZE_MODULUS < 2;
    }
  }

  /** The loop body's four stores. */
  method PutQuad(result: array<bv8>, pos: nat, a: bv8, b: bv8, c: bv8, ghost was: seq<bv8>, ghost done: seq<bv8>)
    requires pos == |done| && pos + 4 <= result.Length == |was| && result[..] == Overlaid(was, done)
    modifies result
    ensures result[..] == Overlaid(was, done + Quad(a, b, c))
  {
    ghost var q := Quad(a, b, c);
    OverlaidThenFour(was, done, q[0], q[1], q[2], q[3]);
    result[pos] := Digit(a >> 2);
    result[pos + 1] := Digit(((a & 0x03) << 4) | (b >> 4));
    result[pos + 2] := Digit(((b & 0x0F) << 2) | (c >> 6));
    result[pos + 3] := Digit(c & 0x3F);
  }

  /** The stores for one or two remaining bytes. */
  method PutLast(result: array<bv8>, pos: nat, data: seq<bv8>, ghost was: seq<bv8>, ghost done: seq<bv8>)
    requires pos == |done| && pos + 4 <= result.Length == |was| && result[..] == Overlaid(was, done)
    requires 0 < |data| < 3
    modifies result
    ensures result[..] == Overlaid(was, done + LastQuad(data))
  {
    ghost var q := LastQuad(data);
    OverlaidThenFour(was, done, q[0], q[1], q[2], q[3]);
    result[pos] := Digit(data[0] >> 2);
    if |data| == 1 {
      result[pos + 1] := Digit((data[0] & 0x03) << 4);
      result[pos + 2] := PAD;
    } else {
      result[pos + 1] := Digit(((data[0] & 0x03) << 4) | (data[1] >> 4));
      result[pos + 2] := Digit((data[1] & 0x0F) << 2);
    }
    result[pos + 3] := PAD;
    assert q == [q[0], q[1], q[2], q[3]];
  }

  /** The text so far and the encoding of the rest, one group further on. */
  lemma MoreDone(data: seq<bv8>, i: nat, done: seq<bv8>)
    requires i + 3 <= |data|
    ensures done + Quads(data[i..])
         == done + Quad(data[i], data[i + 1], data[i + 2]) + Quads(data[i + 3..])
  {
    assert data[i..][3..] == data[i + 3..];
  }

  /** How many characters a call writes before its NUL: all, or the whole groups that fit. */
  function Written(n: nat, maxResultLength: nat): nat {
    if EncodedLength(n) <= maxResultLength then EncodedLength(n) else 4 * (maxResultLength / 4)
  }

  /** That is the whole encoding, or the longest beginning of it that is whole groups and not longer than allowed. */
  lemma WrittenIsLargest(data: seq<bv8>, max: nat, k: nat)
    requires k <= |Encoded(data)|
    ensures k == Written(|data|, max)
       <==> k % 4 == 0 && k <= max && (k == |Encoded(data)| || max < k + 4)
  {
    assert |Encoded(data)| == 4 * ((|data| + 2) / 3) by {
      QuadsAreEncoding(data);
    }
    LargestMultiple(k, (|data| + 2) / 3, max, k / 4, max / 4);
  }

  lemma LargestMultiple(k: nat, groups: nat, max: nat, q: nat, r: nat)
    requires k <= 4 * groups && 4 * q <= k < 4 * q + 4 && 4 * r <= max < 4 * r + 4
    ensures k == (if 4 * groups <= max then 4 * groups else 4 * r)
       <==> k == 4 * q && k <= max && (k == 4 * groups || max < k + 4)
  {
  }

  /** A call writes no byte at or behind max: the guard stops it, or its NUL, the last byte it writes, lies before. */
  predicate StaysInside(n: nat, max: nat) {
    EncodedLength(n) >= SIZE_MODULUS || Written(n, max) < max
  }

  /**
   * The calls that stay inside are those whose text is shorter than the announced length, and the rejected ones
   * whose length is no multiple of four or that the guard stops.
   */
  lemma StaysInsideIff(n: nat, max: nat)
    requires max < SIZE_MODULUS
    ensures StaysInside(n, max) <==>
              EncodedLength(n) < max
              || (max < EncodedLength(n) && (max % 4 != 0 || SIZE_MODULUS <= EncodedLength(n)))
    ensures !StaysInside(n, max) ==> Written(n, max) == max
  {
  }

  /** Three calls that do not: three bytes into four characters, six into four, one into none. */
  lemma NulOutside()
    ensures !StaysInside(3, 4) && EncodedLength(3) <= 4
    ensures !StaysInside(6, 4) && EncodedLength(6) > 4
    ensures !StaysInside(1, 0) && EncodedLength(1) > 0
  {
  }

  lemma WholeGroups(n: nat, groups: nat, max: nat)
    requires 3 * groups <= n && 4 * groups <= max
    ensures 3 * groups == n ==> Written(n, max) == 4 * groups && EncodedLength(n) <= max
    ensures 3 * groups < n && 4 * groups + 4 > max ==> Written(n, max) == 4 * groups && EncodedLength(n) > max
    ensures 3 * groups < n < 3 * groups + 3 && 4 * groups + 4 <= max ==>
              Written(n, max) == 4 * groups + 4 && EncodedLength(n) <= max
  {
  }

  /** The loop over whole groups of three bytes. */
  method PutQuads(data: seq<bv8>, result: array<bv8>, maxResultLength: nat)
    returns (status: int, pos: nat, inPosition: nat, ghost groups: nat, ghost done: seq<bv8>)
    requires maxResultLength <= result.Length
    modifies result
    ensures 0 <= inPosition == 3 * groups <= |data| && |done| == pos == 4 * groups <= maxResultLength
    ensures Quads(data) == done + Quads(data[inPosition..]) && result[..] == Overlaid(old(result[..]), done)
    ensures status == 0 ==> |data| - inPosition < 3
    ensures status != 0 ==> status == 1 && inPosition < |data| && pos + 4 > maxResultLength
  {
    status, pos, inPosition, groups, done := 0, 0, 0, 0, [];
    var currentLength := 0;
    ghost var goal, was := Quads(data), result[..];
    while |data| - inPosition >= 3
      invariant 0 <= inPosition == 3 * groups <= |data|
      invariant |done| == pos == currentLength == 4 * groups <= maxResultLength
      invariant goal == done + Quads(data[inPosition..])
      invariant result[..] == Overlaid(was, done)
      invariant status == 0
    {
      currentLength := currentLength + 4;
      if currentLength > maxResultLength {
        status := 1;
        break;
      }
      MoreDone(data, inPosition, done);
      ghost var quad := Quad(data[inPosition], data[inPosition + 1], data[inPosition + 2]);
      PutQuad(result, pos, data[inPosition], data[inPosition + 1], data[inPosition + 2], was, done);
      done := done + quad;
      pos := pos + 4;
      inPosition := inPosition + 3;
      groups := groups + 1;
    }
  }

  method Encode(data: seq<bv8>, dataLength: nat, result: array<bv8>, maxResultLength: nat) returns (status: int)
    requires dataLength < SIZE_MODULUS && maxResultLength < SIZE_MODULUS && maxResultLength <= result.Length
    requires EncodedLength(dataLength) < SIZE_MODULUS ==> |data| == dataLength
    requires StaysInside(dataLength, maxResultLength) || maxResultLength < result.Length
    modifies result
    ensures status == if EncodedLength(dataLength) <= maxResultLength then 0 else 1
    ensures |Encoded(data)| == EncodedLength(|data|)
    ensures EncodedLength(dataLength) < SIZE_MODULUS ==>
              var k := Written(dataLength, maxResultLength);
              k <= |Encoded(data)| && k < result.Length
              && result[..] == Overlaid(old(result[..]), Encoded(data)[..k] + [0])
    ensures EncodedLength(dataLength) >= SIZE_MODULUS ==> result[..] == old(result[..])
    ensures if StaysInside(dataLength, maxResultLength)
            then result[maxResultLength..] == old(result[maxResultLength..]) else result[maxResultLength] == 0
  {
    var len := 4 * ((dataLength + 2) % SIZE_MODULUS / 3) % SIZE_MODULUS;
    ghost var goal, was := Quads(data), result[..];
    assert goal == Encoded(data) && |goal| == EncodedLength(|data|) by {
      QuadsAreEncoding(data);
    }
    GuardIsExact(dataLength);
    StaysInsideIff(dataLength, maxResultLength);
    if len < dataLength {
      return 1;
    }
    var pos, inPosition;
    ghost var groups, done;
    status, pos, inPosition, groups, done := PutQuads(data, result, maxResultLength);
    WholeGroups(dataLength, groups, maxResultLength);
    if status == 0 && dataLength - inPosition != 0 {
      var currentLength := pos + 4;
      if currentLength > maxResultLength {
        status := 1;
      } else {
        PutLast(result, pos, data[inPosition..], was, done);
        done := done + LastQuad(data[inPosition..]);
        pos := pos + 4;
      }
    }
    assert done == goal[..pos] && pos == Written(dataLength, maxResultLength);
    OverlaidThenSet(was, done, 0);
    result[pos] := 0;
    if pos < maxResultLength {
      OverlaidBehind(was, done + [0], maxResultLength);
    }
  }
}
