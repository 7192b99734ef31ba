/** Texts that no encoder wrote: which of them decode to what encodes back, and which depend on more. */
module Base64Canonical {
  import opened Base64
  import opened Base64Decoding

  // ---------- the byte behind the text ----------

  lemma TailIndependent(text: seq<bv8>, a: bv8, b: bv8)
    requires HasPad(text) && |text| % 4 != 1
    ensures Tail(text, a) == Tail(text, b)
  {
    assert FullLength(text) + 1 < |text|;
  }

  lemma HighBits(i: bv32)
    requires i < 64
    ensures High((i << 18) | (0 << 12)) != High((i << 18) | (63 << 12))
  {
  }

  /** One character more than whole groups: the byte behind the text is used, and shows. */
  lemma TailDependent(text: seq<bv8>)
    requires |text| % 4 == 1
    ensures HasPad(text) && FullLength(text) == |text| - 1
    ensures |Tail(text, 65)| == |Tail(text, 47)| == 1 && Tail(text, 65)[0] != Tail(text, 47)[0]
  {
    assert Index(65) == 0 && Index(47) == 63;
    HighBits(Index(text[|text| - 1]));
  }

  lemma DecodedDiffers(text: seq<bv8>)
    requires |text| % 4 == 1
    ensures Decoded(text, 65) != Decoded(text, 47)
  {
    TailDependent(text);
    var whole := Triples(text[..FullLength(text)]);
    assert Decoded(text, 65)[|whole|] == Tail(text, 65)[0] && Decoded(text, 47)[|whole|] == Tail(text, 47)[0];
  }

  /** The result depends on the byte behind the text exactly when one character is left over. */
  lemma DecodedIndependentIff(text: seq<bv8>)
    ensures (forall a, b :: Decoded(text, a) == Decoded(text, b)) <==> |text| % 4 != 1
  {
    if |text| % 4 == 1 {
      DecodedDiffers(text);
    } else {
      forall a, b ensures Decoded(text, a) == Decoded(text, b) {
        if HasPad(text) {
          TailIndependent(text, a, b);
        }
      }
    }
  }

  /** What one call stores. */
  function StoredBytes(text: seq<bv8>, after: bv8, maxOutLength: nat): seq<bv8> {
    Decoded(text, after)[..Stored(text, after, maxOutLength)]
  }

  lemma SameCounts(text: seq<bv8>, a: bv8, b: bv8, maxOutLength: nat)
    ensures |Decoded(text, a)| == |Decoded(text, b)|
    ensures Accepts(text, a, maxOutLength) == Accepts(text, b, maxOutLength)
    ensures Stored(text, a, maxOutLength) == Stored(text, b, maxOutLength)
  {
  }

  /** With one character left over, a call stores everything or nothing. */
  lemma StoredWithOneLeft(text: seq<bv8>, after: bv8, maxOutLength: nat)
    requires |text| % 4 == 1
    ensures StoredBytes(text, after, maxOutLength)
         == if |text| >= 5 && |text| / 4 * 3 + 1 <= maxOutLength then Decoded(text, after) else []
  {
    assert HasPad(text) && FullLength(text) == |text| - 1 && FullLength(text) / 4 == |text| / 4;
    assert |Decoded(text, after)| == |text| / 4 * 3 + 1;
  }

  /** And what a call stores depends on it exactly when, besides, there is a whole group and everything fits. */
  lemma StoredIndependentIff(text: seq<bv8>, maxOutLength: nat)
    ensures forall a, b :: Accepts(text, a, maxOutLength) == Accepts(text, b, maxOutLength)
    ensures (forall a, b :: StoredBytes(text, a, maxOutLength) == StoredBytes(text, b, maxOutLength))
       <==> !(|text| % 4 == 1 && |text| >= 5 && |text| / 4 * 3 + 1 <= maxOutLength)
  {
    forall a, b ensures Accepts(text, a, maxOutLength) == Accepts(text, b, maxOutLength) {
      SameCounts(text, a, b, maxOutLength);
    }
    if |text| % 4 != 1 {
      DecodedIndependentIff(text);
      forall a, b ensures StoredBytes(text, a, maxOutLength) == StoredBytes(text, b, maxOutLength) {
        SameCounts(text, a, b, maxOutLength);
        assert Decoded(text, a) == Decoded(text, b);
      }
    } else {
      forall a ensures StoredBytes(text, a, maxOutLength)
                    == if |text| >= 5 && |text| / 4 * 3 + 1 <= maxOutLength then Decoded(text, a) else [] {
        StoredWithOneLeft(text, a, maxOutLength);
      }
      DecodedDiffers(text);
      assert StoredBytes(text, 65, maxOutLength) == StoredBytes(text, 47, maxOutLength)
        <==> !(|text| >= 5 && |text| / 4 * 3 + 1 <= maxOutLength);
    }
  }

  /** A concrete text: five letters, decoded differently by what follows them. */
  lemma FollowingByteShows()
    ensures Decoded([81, 85, 74, 67, 81], 65) != Decoded([81, 85, 74, 67, 81], 47)
  {
    DecodedDiffers([81, 85, 74, 67, 81]);
  }

  // ---------- the texts that encode back ----------

  /** The 64 characters of the alphabet. */
  predicate IsDigit(c: bv8) {
    65 <= c <= 90 || 97 <= c <= 122 || 48 <= c <= 57 || c == 43 || c == 47
  }

  lemma DigitIsDigit(i: bv8)
    requires i < 64
    ensures IsDigit(Digit(i))
  {
  }

  lemma DigitOfIndex(c: bv8)
    requires IsDigit(c)
    ensures Digit(Index(c) as bv8) == c && c != PAD
  {
  }

  /** A last group with one or two padding characters, whose unused bits are zero. */
  predicate CanonicalLast(t: seq<bv8>)
    requires |t| == 4
  {
    t[3] == PAD && IsDigit(t[0]) && IsDigit(t[1])
    && if t[2] == PAD then Index(t[1]) & 0x0F == 0 else IsDigit(t[2]) && Index(t[2]) & 0x03 == 0
  }

  /** Whole groups of alphabet characters, the last one possibly padded. */
  predicate Canonical(text: seq<bv8>) {
    text == []
    || (|text| >= 4
        && if |text| == 4 && text[3] == PAD then CanonicalLast(text)
           else IsDigit(text[0]) && IsDigit(text[1]) && IsDigit(text[2]) && IsDigit(text[3]) && Canonical(text[4..]))
  }

  /** Three bytes are made of four sextets. */
  predicate Parts(h: bv8, m: bv8, o: bv8, i: bv8, j: bv8, k: bv8, l: bv8) {
    h >> 2 == i && ((h & 0x03) << 4) | (m >> 4) == j && ((m & 0x0F) << 2) | (o >> 6) == k && o & 0x3F == l
  }

  lemma PartsOfTriple(i: bv32, j: bv32, k: bv32, l: bv32, n: bv32)
    requires i < 64 && j < 64 && k < 64 && l < 64 && n == (i << 18) | (j << 12) | (k << 6) | l
    ensures Parts(High(n), Middle(n), Low(n), i as bv8, j as bv8, k as bv8, l as bv8)
  {
  }

  lemma PartsOfCharacters(a: bv8, b: bv8, c: bv8, d: bv8, n: bv32)
    requires n == Value(a, b, c, d)
    ensures Parts(High(n), Middle(n), Low(n), Index(a) as bv8, Index(b) as bv8, Index(c) as bv8, Index(d) as bv8)
  {
    PartsOfTriple(Index(a), Index(b), Index(c), Index(d), n);
  }

  lemma DigitOfPart(c: bv8, part: bv8)
    requires IsDigit(c) && part == Index(c) as bv8
    ensures part < 64 && Digit(part) == c
  {
    DigitOfIndex(c);
  }

  lemma QuadOfParts(h: bv8, m: bv8, o: bv8, a: bv8, b: bv8, c: bv8, d: bv8)
    requires IsDigit(a) && IsDigit(b) && IsDigit(c) && IsDigit(d)
    requires Parts(h, m, o, Index(a) as bv8, Index(b) as bv8, Index(c) as bv8, Index(d) as bv8)
    ensures Quad(h, m, o) == [a, b, c, d]
  {
    DigitOfPart(a, h >> 2);
    DigitOfPart(b, ((h & 0x03) << 4) | (m >> 4));
    DigitOfPart(c, ((m & 0x0F) << 2) | (o >> 6));
    DigitOfPart(d, o & 0x3F);
  }

  /** Three bytes give back the four alphabet characters they were read from. */
  lemma QuadOfTriple(a: bv8, b: bv8, c: bv8, d: bv8, h: bv8, m: bv8, o: bv8)
    requires IsDigit(a) && IsDigit(b) && IsDigit(c) && IsDigit(d) && Triple(a, b, c, d) == [h, m, o]
    ensures Quad(h, m, o) == [a, b, c, d]
  {
    PartsOfCharacters(a, b, c, d, Value(a, b, c, d));
    QuadOfParts(h, m, o, a, b, c, d);
  }

  lemma LastOfOne(i: bv32, j: bv32, n: bv32)
    requires i < 64 && j < 64 && j & 0x0F == 0 && n == (i << 18) | (j << 12)
    ensures High(n) >> 2 == i as bv8 && (High(n) & 0x03) << 4 == j as bv8
  {
  }

  lemma LastOfTwo(i: bv32, j: bv32, k: bv32, n: bv32)
    requires i < 64 && j < 64 && k < 64 && k & 0x03 == 0 && n == (i << 18) | (j << 12)
    ensures High(n) >> 2 == i as bv8
    ensures ((High(n) & 0x03) << 4) | (Middle(n | (k << 6)) >> 4) == j as bv8
    ensures (Middle(n | (k << 6)) & 0x0F) << 2 == k as bv8
  {
  }

  lemma OneOfParts(h: bv8, a: bv8, b: bv8)
    requires IsDigit(a) && IsDigit(b) && h >> 2 == Index(a) as bv8 && (h & 0x03) << 4 == Index(b) as bv8
    ensures LastQuad([h]) == [a, b, PAD, PAD]
  {
    DigitOfPart(a, h >> 2);
    DigitOfPart(b, (h & 0x03) << 4);
  }

  lemma TwoOfParts(h: bv8, m: bv8, a: bv8, b: bv8, c: bv8)
    requires IsDigit(a) && IsDigit(b) && IsDigit(c)
    requires h >> 2 == Index(a) as bv8 && ((h & 0x03) << 4) | (m >> 4) == Index(b) as bv8
    requires (m & 0x0F) << 2 == Index(c) as bv8
    ensures LastQuad([h, m]) == [a, b, c, PAD]
  {
    DigitOfPart(a, h >> 2);
    DigitOfPart(b, ((h & 0x03) << 4) | (m >> 4));
    DigitOfPart(c, (m & 0x0F) << 2);
  }

  /** The value of a padded last group. */
  lemma DecodedLast(text: seq<bv8>, after: bv8, n: bv32)
    requires |text| == 4 && text[3] == PAD && n == (Index(text[0]) << 18) | (Index(text[1]) << 12)
    ensures Decoded(text, after)
         == if text[2] == PAD then [High(n)] else [High(n), Middle(n | (Index(text[2]) << 6))]
  {
    assert HasPad(text) && FullLength(text) == 0;
    if text[2] == PAD {
      assert Tail(text, after) == [High(n)];
    } else {
      LastDigitOfTwo(text, after, n);
    }
    assert text[..0] == [];
  }

  lemma FourCharacters(text: seq<bv8>)
    requires |text| == 4
    ensures text == [text[0], text[1], text[2], text[3]]
  {
  }

  lemma OneEncodes(a: bv8, b: bv8, n: bv32, h: bv8)
    requires IsDigit(a) && IsDigit(b) && Index(b) & 0x0F == 0
    requires n == (Index(a) << 18) | (Index(b) << 12) && h == High(n)
    ensures LastQuad([h]) == [a, b, PAD, PAD]
  {
    LastOfOne(Index(a), Index(b), n);
    OneOfParts(h, a, b);
  }

  lemma TwoEncodes(a: bv8, b: bv8, c: bv8, n: bv32, h: bv8, m: bv8)
    requires IsDigit(a) && IsDigit(b) && IsDigit(c) && Index(c) & 0x03 == 0
    requires n == (Index(a) << 18) | (Index(b) << 12) && h == High(n) && m == Middle(n | (Index(c) << 6))
    ensures LastQuad([h, m]) == [a, b, c, PAD]
  {
    LastOfTwo(Index(a), Index(b), Index(c), n);
    TwoOfParts(h, m, a, b, c);
  }

  lemma CanonicalLastEncodes(text: seq<bv8>, after: bv8, data: seq<bv8>)
    requires |text| == 4 && CanonicalLast(text) && data == Decoded(text, after)
    ensures 0 < |data| < 3 && LastQuad(data) == text
  {
    var n := (Index(text[0]) << 18) | (Index(text[1]) << 12);
    DecodedLast(text, after, n);
    FourCharacters(text);
    if text[2] == PAD {
      OneEncodes(text[0], text[1], n, data[0]);
    } else {
      TwoEncodes(text[0], text[1], text[2], n, data[0], data[1]);
    }
  }

  lemma {:induction false} CanonicalLength(text: seq<bv8>)
    requires Canonical(text)
    ensures |text| % 4 == 0
  {
    if |text| > 4 {
      CanonicalLength(text[4..]);
    }
  }

  lemma {:induction false} CanonicalEncodes(text: seq<bv8>, after: bv8)
    requires Canonical(text)
    ensures Encoded(Decoded(text, after)) == text
  {
    if text == [] {
      EncodedShort([]);
    } else if |text| == 4 && text[3] == PAD {
      CanonicalLastEncodes(text, after, Decoded(text, after));
      EncodedShort(Decoded(text, after));
    } else {
      CanonicalStep(text, after);
      CanonicalEncodes(text[4..], after);
    }
  }

  lemma CanonicalStep(text: seq<bv8>, after: bv8)
    requires Canonical(text) && text != [] && !(|text| == 4 && text[3] == PAD)
    ensures Encoded(Decoded(text, after)) == text[..4] + Encoded(Decoded(text[4..], after))
  {
    CanonicalLength(text);
    DecodedPeel(text, after);
    FourCharacters(text[..4]);
    EncodesQuad(text[0], text[1], text[2], text[3], Decoded(text[4..], after));
  }

  lemma EncodesQuad(a: bv8, b: bv8, c: bv8, d: bv8, rest: seq<bv8>)
    requires IsDigit(a) && IsDigit(b) && IsDigit(c) && IsDigit(d)
    ensures Encoded(Triple(a, b, c, d) + rest) == [a, b, c, d] + Encoded(rest)
  {
    var t := Triple(a, b, c, d);
    assert t == [t[0], t[1], t[2]] && (t + rest)[3..] == rest;
    EncodedPeel(t + rest);
    QuadOfTriple(a, b, c, d, t[0], t[1], t[2]);
  }

  lemma LastQuadIsCanonical(data: seq<bv8>)
    requires 0 < |data| < 3
    ensures CanonicalLast(LastQuad(data)) && LastQuad(data)[3] == PAD
  {
    DigitIsDigit(data[0] >> 2);
    IndexOfDigit((data[0] & 0x03) << 4);
    DigitIsDigit((data[0] & 0x03) << 4);
    if |data| == 2 {
      DigitIsDigit(((data[0] & 0x03) << 4) | (data[1] >> 4));
      DigitIsDigit((data[1] & 0x0F) << 2);
      IndexOfDigit((data[1] & 0x0F) << 2);
    }
  }

  lemma {:induction false} EncodedIsCanonical(data: seq<bv8>)
    ensures Canonical(Encoded(data))
    decreases |data|
  {
    if |data| < 3 {
      EncodedShort(data);
      if data != [] {
        LastQuadIsCanonical(data);
      }
    } else {
      var a, b, c, rest := data[0], data[1], data[2], Encoded(data[3..]);
      EncodedPeel(data);
      EncodedIsCanonical(data[3..]);
      DigitIsDigit(a >> 2);
      DigitIsDigit(((a & 0x03) << 4) | (b >> 4));
      DigitIsDigit(((b & 0x0F) << 2) | (c >> 6));
      DigitIsDigit(c & 0x3F);
      CanonicalPrepend(Quad(a, b, c), rest);
    }
  }

  lemma CanonicalPrepend(quad: seq<bv8>, rest: seq<bv8>)
    requires |quad| == 4 && IsDigit(quad[0]) && IsDigit(quad[1]) && IsDigit(quad[2]) && IsDigit(quad[3])
    requires Canonical(rest)
    ensures Canonical(quad + rest)
  {
    assert (quad + rest)[4..] == rest;
  }

  /**
   * The other round trip: of all texts, encoding undoes decoding exactly for the canonical ones. Any other text,
   * whatever characters it holds, decodes to bytes whose encoding is a different text.
   */
  lemma EncodesBackIff(text: seq<bv8>, after: bv8)
    ensures Encoded(Decoded(text, after)) == text <==> Canonical(text)
  {
    EncodedIsCanonical(Decoded(text, after));
    if Canonical(text) {
      CanonicalEncodes(text, after);
    }
  }
}
