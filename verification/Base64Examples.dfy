/** The encoding's alphabet and padding, on texts written out. */
module Base64Examples {
  import opened Base64

  /** Whole groups of three bytes are encoded on their own. */
  lemma {:induction false} EncodedConcat(a: seq<bv8>, b: seq<bv8>)
    requires |a| % 3 == 0
    ensures Encoded(a + b) == Encoded(a) + Encoded(b)
    decreases |a|
  {
    if a == [] {
      EncodedShort([]);
      assert a + b == b;
    } else {
      assert (a + b)[3..] == a[3..] + b;
      EncodedPeel(a);
      EncodedPeel(a + b);
      EncodedConcat(a[3..], b);
      ConcatTwice(Quad(a[0], a[1], a[2]), Encoded(a[3..]), Encoded(b));
    }
  }

  lemma EncodedGroup(a: bv8, b: bv8, c: bv8)
    ensures Encoded([a, b, c]) == Quad(a, b, c)
  {
    EncodedPeel([a, b, c]);
    EncodedShort([]);
    assert [a, b, c][3..] == [];
  }

  /** The texts "f", "fo" and "foo" become "Zg==", "Zm8=" and "Zm9v". */
  lemma ShortTexts()
    ensures Encoded([102]) == [90, 103, 61, 61]
    ensures Encoded([102, 111]) == [90, 109, 56, 61]
    ensures Encoded([102, 111, 111]) == [90, 109, 57, 118]
  {
    EncodedOne(102);
    EncodedTwo(102, 111);
    EncodedGroup(102, 111, 111);
  }

  predicate Becomes(a: bv8, b: bv8, c: bv8, w: bv8, x: bv8, y: bv8, z: bv8) {
    Digit(a >> 2) == w && Digit(((a & 0x03) << 4) | (b >> 4)) == x
    && Digit(((b & 0x0F) << 2) | (c >> 6)) == y && Digit(c & 0x3F) == z
  }

  lemma NextGroup(d: seq<bv8>, t: seq<bv8>)
    requires |d| >= 3 && |t| >= 4 && Becomes(d[0], d[1], d[2], t[0], t[1], t[2], t[3])
    requires Encoded(d[3..]) == t[4..]
    ensures Encoded(d) == t
  {
    EncodedPeel(d);
    assert t == [t[0], t[1], t[2], t[3]] + t[4..];
  }

  lemma Twelve(d: seq<bv8>, t: seq<bv8>)
    requires |d| == 12 && |t| == 16
    requires Becomes(d[0], d[1], d[2], t[0], t[1], t[2], t[3])
    requires Becomes(d[3], d[4], d[5], t[4], t[5], t[6], t[7])
    requires Becomes(d[6], d[7], d[8], t[8], t[9], t[10], t[11])
    requires Becomes(d[9], d[10], d[11], t[12], t[13], t[14], t[15])
    ensures Encoded(d) == t
  {
    EncodedShort([]);
    assert d[12..] == [] && t[16..] == [];
    assert d[9..][3..] == d[12..] && t[12..][4..] == t[16..];
    NextGroup(d[9..], t[12..]);
    assert d[6..][3..] == d[9..] && t[8..][4..] == t[12..];
    NextGroup(d[6..], t[8..]);
    assert d[3..][3..] == d[6..] && t[4..][4..] == t[8..];
    NextGroup(d[3..], t[4..]);
    NextGroup(d, t);
  }

  /** A to P */
  lemma UpToP(d: seq<bv8>)
    requires d == [0x00, 0x10, 0x83, 0x10, 0x51, 0x87, 0x20, 0x92, 0x8B, 0x30, 0xD3, 0x8F]
    ensures Encoded(d) == [65, 66, 67, 68, 69, 70, 71, 72, 73, 74, 75, 76, 77, 78, 79, 80]
  {
    Twelve(d, [65, 66, 67, 68, 69, 70, 71, 72, 73, 74, 75, 76, 77, 78, 79, 80]);
  }

  /** Q to Z and a to f */
  lemma UpToF(d: seq<bv8>)
    requires d == [0x41, 0x14, 0x93, 0x51, 0x55, 0x97, 0x61, 0x96, 0x9B, 0x71, 0xD7, 0x9F]
    ensures Encoded(d) == [81, 82, 83, 84, 85, 86, 87, 88, 89, 90, 97, 98, 99, 100, 101, 102]
  {
    Twelve(d, [81, 82, 83, 84, 85, 86, 87, 88, 89, 90, 97, 98, 99, 100, 101, 102]);
  }

  /** g to v */
  lemma UpToV(d: seq<bv8>)
    requires d == [0x82, 0x18, 0xA3, 0x92, 0x59, 0xA7, 0xA2, 0x9A, 0xAB, 0xB2, 0xDB, 0xAF]
    ensures Encoded(d) == [103, 104, 105, 106, 107, 108, 109, 110, 111, 112, 113, 114, 115, 116, 117, 118]
  {
    Twelve(d, [103, 104, 105, 106, 107, 108, 109, 110, 111, 112, 113, 114, 115, 116, 117, 118]);
  }

  /** w to z, 0 to 9, + and / */
  lemma UpToSlash(d: seq<bv8>)
    requires d == [0xC3, 0x1C, 0xB3, 0xD3, 0x5D, 0xB7, 0xE3, 0x9E, 0xBB, 0xF3, 0xDF, 0xBF]
    ensures Encoded(d) == [119, 120, 121, 122, 48, 49, 50, 51, 52, 53, 54, 55, 56, 57, 43, 47]
  {
    Twelve(d, [119, 120, 121, 122, 48, 49, 50, 51, 52, 53, 54, 55, 56, 57, 43, 47]);
  }

  lemma FourParts(a: seq<bv8>, b: seq<bv8>, c: seq<bv8>, d: seq<bv8>)
    requires |a| == |b| == |c| == 12
    ensures Encoded(a + b + c + d) == Encoded(a) + Encoded(b) + Encoded(c) + Encoded(d)
  {
    EncodedConcat(a, b);
    EncodedConcat(a + b, c);
    EncodedConcat(a + b + c, d);
  }

  /** A byte string whose encoding is the alphabet in order: A to Z, a to z, 0 to 9, + and /. */
  lemma AlphabetInOrder(a: seq<bv8>, b: seq<bv8>, c: seq<bv8>, d: seq<bv8>)
    requires a == [0x00, 0x10, 0x83, 0x10, 0x51, 0x87, 0x20, 0x92, 0x8B, 0x30, 0xD3, 0x8F]
    requires b == [0x41, 0x14, 0x93, 0x51, 0x55, 0x97, 0x61, 0x96, 0x9B, 0x71, 0xD7, 0x9F]
    requires c == [0x82, 0x18, 0xA3, 0x92, 0x59, 0xA7, 0xA2, 0x9A, 0xAB, 0xB2, 0xDB, 0xAF]
    requires d == [0xC3, 0x1C, 0xB3, 0xD3, 0x5D, 0xB7, 0xE3, 0x9E, 0xBB, 0xF3, 0xDF, 0xBF]
    ensures Encoded(a + b + c + d)
         == [65, 66, 67, 68, 69, 70, 71, 72, 73, 74, 75, 76, 77, 78, 79, 80]
          + [81, 82, 83, 84, 85, 86, 87, 88, 89, 90, 97, 98, 99, 100, 101, 102]
          + [103, 104, 105, 106, 107, 108, 109, 110, 111, 112, 113, 114, 115, 116, 117, 118]
          + [119, 120, 121, 122, 48, 49, 50, 51, 52, 53, 54, 55, 56, 57, 43, 47]
  {
    FourParts(a, b, c, d);
    UpToP(a);
    UpToF(b);
    UpToV(c);
    UpToSlash(d);
  }
}
