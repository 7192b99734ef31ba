/** What any text decodes to, whatever characters it holds, and what a call does with it. */
module Base64Normal {
  import opened Base64
  import opened Base64Decoding
  import opened Base64Canonical

  // ---------- characters outside the alphabet ----------

  /** The alphabet character that a character counts as: `-` and `.` as `+`, `,` and `_` as `/`, others as `A`. */
  function Plain(c: bv8): (p: bv8) {
    if 65 <= c <= 90 || 97 <= c <= 122 || 48 <= c <= 57 || c == 43 || c == 47 then c
    else if c == 45 || c == 46 then 43
    else if c == 44 || c == 95 then 47
    else 65
  }

  lemma PlainIndex(c: bv8)
    ensures IsDigit(Plain(c)) && Index(c) == Index(Plain(c))
  {
  }

  /** Every character replaced by the one it counts as, `=` (61) excepted, which may be padding. */
  function PlainText(text: seq<bv8>): (r: seq<bv8>)
    ensures |r| == |text|
  {
    seq(|text|, i requires 0 <= i < |text| => if text[i] == 61 then 61 else Plain(text[i]))
  }

  lemma PlainIsPad(c: bv8)
    ensures (if c == 61 then 61 else Plain(c)) == PAD <==> c == PAD
    ensures Index(if c == 61 then 61 else Plain(c)) == Index(c)
  {
    PlainIndex(c);
  }

  /** The same numbers and the same padding: nothing else of a text is looked at. */
  predicate ReadsLike(s: seq<bv8>, t: seq<bv8>) {
    |s| == |t| && forall i :: 0 <= i < |s| ==> Index(s[i]) == Index(t[i]) && (s[i] == PAD <==> t[i] == PAD)
  }

  lemma {:induction false} SameTriples(s: seq<bv8>, t: seq<bv8>)
    requires |s| == |t| && |s| % 4 == 0 && forall i :: 0 <= i < |s| ==> Index(s[i]) == Index(t[i])
    ensures Triples(s) == Triples(t)
  {
    if s != [] {
      SameTriples(s[4..], t[4..]);
    }
  }

  lemma SameLength(s: seq<bv8>, t: seq<bv8>)
    requires ReadsLike(s, t)
    ensures HasPad(s) == HasPad(t) && FullLength(s) == FullLength(t)
  {
  }

  /** The bytes of an incomplete group of two or three characters, from their numbers. */
  function TailOf(i: bv32, j: bv32, k: bv32, two: bool): (r: seq<bv8>) {
    var n := (i << 18) | (j << 12);
    [High(n)] + if two then [Middle(n | (k << 6))] else []
  }

  /** Whether the incomplete group has a third character. */
  predicate HasThird(text: seq<bv8>) {
    var len := FullLength(text);
    |text| > len + 2 && text[len + 2] != PAD
  }

  lemma TailFrom(text: seq<bv8>, after: bv8, i: bv32, j: bv32, k: bv32)
    requires HasPad(text) && i == Index(text[FullLength(text)])
    requires j == Index(At(text, after, FullLength(text) + 1))
    requires HasThird(text) ==> k == Index(text[FullLength(text) + 2])
    ensures Tail(text, after) == TailOf(i, j, k, HasThird(text))
  {
  }

  lemma SameTail(s: seq<bv8>, t: seq<bv8>, a: bv8, b: bv8)
    requires ReadsLike(s, t) && Index(a) == Index(b) && HasPad(s) && HasPad(t)
    ensures Tail(s, a) == Tail(t, b)
  {
    var len := FullLength(s);
    SameLength(s, t);
    var i, j, k := Index(s[len]), Index(At(s, a, len + 1)), Index(At(s, a, len + 2));
    assert HasThird(s) == HasThird(t);
    TailFrom(s, a, i, j, k);
    TailFrom(t, b, i, j, k);
  }

  lemma SameDecoding(s: seq<bv8>, t: seq<bv8>, a: bv8, b: bv8)
    requires ReadsLike(s, t) && Index(a) == Index(b)
    ensures FullLength(s) == FullLength(t) && Decoded(s, a) == Decoded(t, b)
  {
    var len := FullLength(s);
    SameLength(s, t);
    SameTriples(s[..len], t[..len]);
    if HasPad(s) {
      SameTail(s, t, a, b);
    }
  }

  /** A text decodes, and is accepted, like the text of alphabet characters and padding that it counts as. */
  lemma DecodesLikePlain(text: seq<bv8>, after: bv8, maxOutLength: nat)
    ensures Decoded(text, after) == Decoded(PlainText(text), Plain(after))
    ensures Accepts(text, after, maxOutLength) == Accepts(PlainText(text), Plain(after), maxOutLength)
    ensures Stored(text, after, maxOutLength) == Stored(PlainText(text), Plain(after), maxOutLength)
  {
    forall i | 0 <= i < |text| ensures Index(text[i]) == Index(PlainText(text)[i])
                                    && (text[i] == PAD <==> PlainText(text)[i] == PAD) {
      PlainIsPad(text[i]);
    }
    PlainIndex(after);
    SameDecoding(text, PlainText(text), after, Plain(after));
  }

  // ---------- the canonical text of a decoding ----------

  /** A character with some of the low bits of its number cleared. */
  function Cleared(c: bv8, mask: bv32): (r: bv8)
    ensures IsDigit(r) && Index(r) == Index(c) & mask
  {
    ClearedIndex(Index(c) & mask);
    Digit((Index(c) & mask) as bv8)
  }

  lemma ClearedIndex(i: bv32)
    requires i < 64
    ensures IsDigit(Digit(i as bv8)) && Index(Digit(i as bv8)) == i
  {
    DigitIsDigit(i as bv8);
    IndexOfDigit(i as bv8);
  }

  /** The last group of one to three characters, or of four with padding at the end, completed. */
  function NormalLast(text: seq<bv8>, after: bv8): (r: seq<bv8>)
    requires 0 < |text| <= 4
    ensures |r| == 4
  {
    if |text| > 2 && text[2] != 61 then [Plain(text[0]), Plain(text[1]), Cleared(text[2], 0x3C), 61]
    else [Plain(text[0]), Cleared(if |text| > 1 then text[1] else after, 0x30), 61, 61]
  }

  /** The text with every character replaced by the one it counts as, unused bits cleared and the padding completed. */
  function Normal(text: seq<bv8>, after: bv8): (r: seq<bv8>) {
    if text == [] then []
    else if |text| < 4 || (|text| == 4 && text[3] == 61) then NormalLast(text, after)
    else [Plain(text[0]), Plain(text[1]), Plain(text[2]), Plain(text[3])] + Normal(text[4..], after)
  }

  lemma HighOfCleared(i: bv32, j: bv32)
    requires i < 64 && j < 64
    ensures High((i << 18) | (j << 12)) == High((i << 18) | ((j & 0x30) << 12))
  {
  }

  lemma MiddleOfCleared(n: bv32, k: bv32)
    requires k < 64
    ensures Middle(n | (k << 6)) == Middle(n | ((k & 0x3C) << 6))
  {
  }

  lemma MaskedBits(i: bv32)
    ensures i & 0x30 & 0x0F == 0 && i & 0x3C & 0x03 == 0
  {
  }

  lemma OneByte(p: bv8, q: bv8, j: bv32, h: bv8)
    requires IsDigit(p) && IsDigit(q) && j < 64 && Index(q) == j & 0x30 && h == High((Index(p) << 18) | (j << 12))
    ensures LastQuad([h]) == [p, q, PAD, PAD]
  {
    HighOfCleared(Index(p), j);
    MaskedBits(j);
    OneEncodes(p, q, (Index(p) << 18) | (Index(q) << 12), h);
  }

  lemma TwoBytes(p: bv8, q: bv8, r: bv8, k: bv32, n: bv32, h: bv8, m: bv8)
    requires IsDigit(p) && IsDigit(q) && IsDigit(r) && k < 64 && Index(r) == k & 0x3C
    requires n == (Index(p) << 18) | (Index(q) << 12) && h == High(n) && m == Middle(n | (k << 6))
    ensures LastQuad([h, m]) == [p, q, r, PAD]
  {
    MiddleOfCleared(n, k);
    MaskedBits(k);
    TwoEncodes(p, q, r, n, h, m);
  }

  lemma LastOfThird(text: seq<bv8>, after: bv8, p: bv8, q: bv8, r: bv8, k: bv32, n: bv32)
    requires 2 < |text| <= 4 && (|text| == 4 ==> text[3] == PAD) && text[2] != PAD
    requires IsDigit(p) && IsDigit(q) && n == (Index(p) << 18) | (Index(q) << 12)
    requires n == (Index(text[0]) << 18) | (Index(text[1]) << 12)
    requires IsDigit(r) && Index(r) == k & 0x3C && k == Index(text[2])
    ensures Encoded(Decoded(text, after)) == [p, q, r, PAD]
  {
    var h, m := High(n), Middle(n | (k << 6));
    LastDigitOfTwo(text, after, n);
    TwoBytes(p, q, r, k, n, h, m);
    EncodedShort([h, m]);
  }

  lemma ThreeCharacters(text: seq<bv8>, after: bv8, p: bv8, q: bv8, r: bv8, k: bv32)
    requires 2 < |text| <= 4 && (|text| == 4 ==> text[3] == PAD) && text[2] != PAD
    requires IsDigit(p) && Index(p) == Index(text[0]) && IsDigit(q) && Index(q) == Index(text[1])
    requires IsDigit(r) && Index(r) == k & 0x3C && k == Index(text[2])
    ensures Encoded(Decoded(text, after)) == [p, q, r, PAD]
  {
    LastOfThird(text, after, p, q, r, k, (Index(p) << 18) | (Index(q) << 12));
  }

  lemma LastOfSecond(text: seq<bv8>, after: bv8, p: bv8, q: bv8, j: bv32, n: bv32)
    requires 0 < |text| <= 4 && (|text| == 4 ==> text[3] == PAD) && (|text| > 2 ==> text[2] == PAD)
    requires IsDigit(p) && Index(p) == Index(text[0]) && n == (Index(p) << 18) | (j << 12)
    requires IsDigit(q) && Index(q) == j & 0x30 && j == Index(At(text, after, 1))
    ensures Encoded(Decoded(text, after)) == [p, q, PAD, PAD]
  {
    assert HasPad(text) && FullLength(text) == 0;
    OnlyTail(text, after, [High(n)]);
    OneByte(p, q, j, High(n));
    EncodedShort([High(n)]);
  }

  lemma LastNormal(text: seq<bv8>, after: bv8)
    requires 0 < |text| <= 4 && (|text| == 4 ==> text[3] == PAD)
    ensures Encoded(Decoded(text, after)) == NormalLast(text, after)
  {
    PlainIndex(text[0]);
    if |text| > 2 && text[2] != PAD {
      PlainIndex(text[1]);
      ThreeCharacters(text, after, Plain(text[0]), Plain(text[1]), Cleared(text[2], 0x3C), Index(text[2]));
    } else {
      var second := At(text, after, 1);
      LastOfSecond(text, after, Plain(text[0]), Cleared(second, 0x30), Index(second),
                   (Index(text[0]) << 18) | (Index(second) << 12));
    }
  }

  lemma TripleFrom(a: bv8, b: bv8, c: bv8, d: bv8, i: bv32, j: bv32, k: bv32, l: bv32, n: bv32)
    requires i == Index(a) && j == Index(b) && k == Index(c) && l == Index(d)
    requires n == (i << 18) | (j << 12) | (k << 6) | l
    ensures Triple(a, b, c, d) == [High(n), Middle(n), Low(n)]
  {
  }

  lemma SameTriple(a: bv8, b: bv8, c: bv8, d: bv8, p: bv8, q: bv8, r: bv8, s: bv8)
    requires Index(a) == Index(p) && Index(b) == Index(q) && Index(c) == Index(r) && Index(d) == Index(s)
    ensures Triple(a, b, c, d) == Triple(p, q, r, s)
  {
    var i, j, k, l := Index(a), Index(b), Index(c), Index(d);
    TripleFrom(a, b, c, d, i, j, k, l, (i << 18) | (j << 12) | (k << 6) | l);
    TripleFrom(p, q, r, s, i, j, k, l, (i << 18) | (j << 12) | (k << 6) | l);
  }

  lemma EncodesSameQuad(a: bv8, b: bv8, c: bv8, d: bv8, p: bv8, q: bv8, r: bv8, s: bv8, rest: seq<bv8>)
    requires IsDigit(p) && IsDigit(q) && IsDigit(r) && IsDigit(s) && Triple(a, b, c, d) == Triple(p, q, r, s)
    ensures Encoded(Triple(a, b, c, d) + rest) == [p, q, r, s] + Encoded(rest)
  {
    EncodesQuad(p, q, r, s, rest);
  }

  lemma EncodesPlainQuad(a: bv8, b: bv8, c: bv8, d: bv8, rest: seq<bv8>)
    ensures Encoded(Triple(a, b, c, d) + rest) == [Plain(a), Plain(b), Plain(c), Plain(d)] + Encoded(rest)
  {
    PlainIndex(a);
    PlainIndex(b);
    PlainIndex(c);
    PlainIndex(d);
    SameTriple(a, b, c, d, Plain(a), Plain(b), Plain(c), Plain(d));
    EncodesSameQuad(a, b, c, d, Plain(a), Plain(b), Plain(c), Plain(d), rest);
  }

  /** What a text decodes to, for all texts: the bytes whose encoding is its normal form. */
  lemma {:induction false} EncodesToNormal(text: seq<bv8>, after: bv8)
    ensures Encoded(Decoded(text, after)) == Normal(text, after)
    decreases |text|
  {
    if text == [] {
      EncodedShort([]);
    } else if |text| < 4 || (|text| == 4 && text[3] == PAD) {
      LastNormal(text, after);
    } else {
      DecodedPeel(text, after);
      EncodesPlainQuad(text[0], text[1], text[2], text[3], Decoded(text[4..], after));
      EncodesToNormal(text[4..], after);
    }
  }

  // ---------- what a call does with it ----------

  /** The number of bytes, from the length and the padding. */
  lemma DecodedLength(text: seq<bv8>, after: bv8)
    ensures var groups, left := |text| / 4, |text| % 4;
            |Decoded(text, after)|
            == if left == 1 || left == 2 then 3 * groups + 1
               else if left == 3 then 3 * groups + if text[|text| - 1] == 61 then 1 else 2
               else if text != [] && text[|text| - 1] == 61 then 3 * groups - if text[|text| - 2] == 61 then 2 else 1
               else 3 * groups
  {
  }

  /** A call succeeds exactly when there are at least three bytes and they fit. */
  lemma AcceptsIff(text: seq<bv8>, after: bv8, maxOutLength: nat)
    ensures Accepts(text, after, maxOutLength) <==> 3 <= |Decoded(text, after)| <= maxOutLength
  {
  }

  /** A rejected call stores nothing, or all but the second byte of an incomplete group if only that has no room. */
  lemma StoredIs(text: seq<bv8>, after: bv8, maxOutLength: nat)
    ensures var n := |Decoded(text, after)|;
            Stored(text, after, maxOutLength)
            == if 3 <= n <= maxOutLength then n else if 3 <= n == maxOutLength + 1 && n % 3 == 2 then n - 1 else 0
  {
  }
}
