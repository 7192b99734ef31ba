/** Base64 decoding: what it accepts, and that it undoes the encoding. */
module Base64Decoding {
  import opened Bits
  import opened Base64
  import opened Common
  import opened Overlay

  /** A character of the text, or the byte that follows it in memory. */
  function At(text: seq<bv8>, after: bv8, i: nat): bv8 {
    if i < |text| then text[i] else after
  }

  predicate HasPad(text: seq<bv8>) {
    |text| > 0 && (|text| % 4 != 0 || text[|text| - 1] == PAD)
  }

  function Flag(b: bool): nat {
    if b then 1 else 0
  }

  /** The length of the part decoded as groups of four characters. */
  function FullLength(text: seq<bv8>): (n: nat)
    ensures n % 4 == 0
    ensures if HasPad(text) then n < |text| <= n + 4 else n == |text|
  {
    ((|text| + 3) / 4 - Flag(HasPad(text))) * 4
  }

  /** The 24-bit number of four characters. */
  function Value(a: bv8, b: bv8, c: bv8, d: bv8): bv32 {
    (Index(a) << 18) | (Index(b) << 12) | (Index(c) << 6) | Index(d)
  }

  function High(n: bv32): bv8 { ((n >> 16) & 0xFF) as bv8 }

  function Middle(n: bv32): bv8 { ((n >> 8) & 0xFF) as bv8 }

  function Low(n: bv32): bv8 { (n & 0xFF) as bv8 }

  function Triple(a: bv8, b: bv8, c: bv8, d: bv8): (r: seq<bv8>)
    ensures |r| == 3
  {
    var n := Value(a, b, c, d);
    [High(n), Middle(n), Low(n)]
  }

  function Triples(text: seq<bv8>): (r: seq<bv8>)
    requires |text| % 4 == 0
    ensures |r| == |text| / 4 * 3
  {
    if text == [] then [] else Triple(text[0], text[1], text[2], text[3]) + Triples(text[4..])
  }

  /** The one or two bytes of the last, incomplete group. */
  function Tail(text: seq<bv8>, after: bv8): (r: seq<bv8>)
    requires HasPad(text)
    ensures 1 <= |r| <= 2
  {
    var len := FullLength(text);
    var n := (Index(text[len]) << 18) | (Index(At(text, after, len + 1)) << 12);
    [High(n)]
    + if |text| > len + 2 && text[len + 2] != PAD then [Middle(n | (Index(text[len + 2]) << 6))] else []
  }

  function Decoded(text: seq<bv8>, after: bv8): seq<bv8> {
    Triples(text[..FullLength(text)]) + if HasPad(text) then Tail(text, after) else []
  }

  /** Decoding succeeds: at least one whole group, and room for the result. */
  predicate Accepts(text: seq<bv8>, after: bv8, maxOutLength: nat) {
    FullLength(text) != 0 && |Decoded(text, after)| <= maxOutLength
  }

  // ---------- the round trip ----------

  lemma IndexOfDigit(i: bv8)
    requires i < 64
    ensures Digit(i) != PAD
    ensures Index(Digit(i)) == i as bv32
  {
  }

  lemma PeelKeepsEnd(text: seq<bv8>)
    requires FullLength(text) >= 4
    ensures HasPad(text[4..]) == HasPad(text) && FullLength(text[4..]) == FullLength(text) - 4
  {
    var rest := text[4..];
    assert |rest| % 4 == |text| % 4;
    if |rest| > 0 {
      assert rest[|rest| - 1] == text[|text| - 1];
    }
  }

  lemma TailPeel(text: seq<bv8>, after: bv8)
    requires FullLength(text) >= 4 && HasPad(text)
    ensures HasPad(text[4..]) && Tail(text, after) == Tail(text[4..], after)
  {
    PeelKeepsEnd(text);
    var rest, len := text[4..], FullLength(text);
    assert At(text, after, len + 1) == At(rest, after, len - 4 + 1);
  }

  lemma DecodedPeel(text: seq<bv8>, after: bv8)
    requires FullLength(text) >= 4
    ensures Decoded(text, after) == Triple(text[0], text[1], text[2], text[3]) + Decoded(text[4..], after)
  {
    var rest, len := text[4..], FullLength(text);
    PeelKeepsEnd(text);
    assert text[..len][4..] == rest[..len - 4];
    if HasPad(text) {
      TailPeel(text, after);
    }
  }

  lemma TripleOfSextets(a: bv8, b: bv8, c: bv8, n: bv32)
    requires n == ((a >> 2) as bv32 << 18) | ((((a & 0x03) << 4) | (b >> 4)) as bv32 << 12)
               | ((((b & 0x0F) << 2) | (c >> 6)) as bv32 << 6) | ((c & 0x3F) as bv32)
    ensures High(n) == a && Middle(n) == b && Low(n) == c
  {
  }

  /** Four digits give back their three bytes. */
  lemma TripleOfQuad(a: bv8, b: bv8, c: bv8)
    ensures var q := Quad(a, b, c); Triple(q[0], q[1], q[2], q[3]) == [a, b, c]
  {
    IndexOfDigit(a >> 2);
    IndexOfDigit(((a & 0x03) << 4) | (b >> 4));
    IndexOfDigit(((b & 0x0F) << 2) | (c >> 6));
    IndexOfDigit(c & 0x3F);
    var q := Quad(a, b, c);
    TripleOfSextets(a, b, c, Value(q[0], q[1], q[2], q[3]));
  }

  lemma TailOfOne(a: bv8, text: seq<bv8>, after: bv8)
    requires 2 <= |text| <= 4 && (|text| > 2 ==> text[2] == PAD) && (|text| > 3 ==> text[3] == PAD)
    requires text[0] == Digit(a >> 2) && text[1] == Digit((a & 0x03) << 4)
    ensures FullLength(text) == 0 && Decoded(text, after) == [a]
  {
    IndexOfDigit(a >> 2);
    IndexOfDigit((a & 0x03) << 4);
    assert High(((a >> 2) as bv32 << 18) | (((a & 0x03) << 4) as bv32 << 12)) == a;
  }

  lemma MiddleOfSextets(a: bv8, b: bv8, n: bv32)
    requires n == ((a >> 2) as bv32 << 18) | ((((a & 0x03) << 4) | (b >> 4)) as bv32 << 12)
    ensures High(n) == a && Middle(n | (((b & 0x0F) << 2) as bv32 << 6)) == b
  {
  }

  /** Three characters of an incomplete group, whatever they are. */
  lemma ShortLength(text: seq<bv8>)
    requires 3 <= |text| <= 4 && (|text| > 3 ==> text[3] == PAD)
    ensures HasPad(text) && FullLength(text) == 0
  {
  }

  lemma TailOfThree(text: seq<bv8>, after: bv8, h: bv8, m: bv8)
    requires 3 <= |text| <= 4 && HasPad(text) && FullLength(text) == 0 && text[2] != PAD
    requires h == High((Index(text[0]) << 18) | (Index(text[1]) << 12))
    requires m == Middle((Index(text[0]) << 18) | (Index(text[1]) << 12) | (Index(text[2]) << 6))
    ensures Tail(text, after) == [h, m]
  {
  }

  lemma OnlyTail(text: seq<bv8>, after: bv8, tail: seq<bv8>)
    requires HasPad(text) && FullLength(text) == 0 && tail == Tail(text, after)
    ensures Decoded(text, after) == tail
  {
    assert text[..0] == [];
  }

  lemma LastDigitOfTwo(text: seq<bv8>, after: bv8, n: bv32)
    requires 3 <= |text| <= 4 && (|text| > 3 ==> text[3] == PAD) && text[2] != PAD
    requires n == (Index(text[0]) << 18) | (Index(text[1]) << 12)
    ensures FullLength(text) == 0 && Decoded(text, after) == [High(n), Middle(n | (Index(text[2]) << 6))]
  {
    var h, m := High(n), Middle(n | (Index(text[2]) << 6));
    ShortLength(text);
    TailOfThree(text, after, h, m);
    OnlyTail(text, after, [h, m]);
  }

  lemma TailOfTwo(a: bv8, b: bv8, text: seq<bv8>, after: bv8)
    requires 3 <= |text| <= 4 && (|text| > 3 ==> text[3] == PAD)
    requires text[0] == Digit(a >> 2) && text[1] == Digit(((a & 0x03) << 4) | (b >> 4))
    requires text[2] == Digit((b & 0x0F) << 2)
    ensures FullLength(text) == 0 && Decoded(text, after) == [a, b]
  {
    IndexOfDigit(a >> 2);
    IndexOfDigit(((a & 0x03) << 4) | (b >> 4));
    IndexOfDigit((b & 0x0F) << 2);
    var n := (Index(text[0]) << 18) | (Index(text[1]) << 12);
    LastDigitOfTwo(text, after, n);
    MiddleOfSextets(a, b, n);
  }

  /** The encoding with only p of its padding characters. */
  function Padded(data: seq<bv8>, p: nat): seq<bv8> {
    Groups(BitsOf(data)) + Padding(p)
  }

  lemma PaddedOne(a: bv8, p: nat, after: bv8)
    requires p <= 2
    ensures FullLength(Padded([a], p)) == 0 && Decoded(Padded([a], p), after) == [a]
  {
    GroupsLastOne(a);
    TailOfOne(a, Padded([a], p), after);
  }

  lemma PaddedTwo(a: bv8, b: bv8, p: nat, after: bv8)
    requires p <= 1
    ensures FullLength(Padded([a, b], p)) == 0 && Decoded(Padded([a, b], p), after) == [a, b]
  {
    GroupsLastTwo(a, b);
    TailOfTwo(a, b, Padded([a, b], p), after);
  }

  lemma PaddedPeel(data: seq<bv8>, p: nat)
    requires |data| >= 3
    ensures Padded(data, p) == Quad(data[0], data[1], data[2]) + Padded(data[3..], p)
  {
    GroupsPeel(data);
  }

  lemma Thirds(n: nat)
    requires n >= 3
    ensures (n - 3) % 3 == n % 3 && n / 3 * 4 == (n - 3) / 3 * 4 + 4
  {
  }

  lemma PaddedShort(data: seq<bv8>, p: nat, after: bv8)
    requires |data| < 3 && p <= (3 - |data| % 3) % 3
    ensures FullLength(Padded(data, p)) == 0 && Decoded(Padded(data, p), after) == data
  {
    if |data| == 0 {
      assert Padded(data, p) == [];
    } else if |data| == 1 {
      assert data == [data[0]];
      PaddedOne(data[0], p, after);
    } else {
      assert data == [data[0], data[1]];
      PaddedTwo(data[0], data[1], p, after);
    }
  }

  lemma ModFour(n: nat)
    ensures (n + 4) % 4 == n % 4
  {
  }

  lemma FullLengthPrepend(quad: seq<bv8>, tail: seq<bv8>)
    requires |quad| == 4 && quad[3] != PAD
    ensures FullLength(quad + tail) == 4 + FullLength(tail)
  {
    var text := quad + tail;
    ModFour(|tail|);
    if tail != [] {
      assert text[|text| - 1] == tail[|tail| - 1];
    }
    assert HasPad(text) == HasPad(tail);
  }

  lemma RoundTripStep(a: bv8, b: bv8, c: bv8, rest: seq<bv8>, tail: seq<bv8>, after: bv8)
    requires Decoded(tail, after) == rest
    ensures Decoded(Quad(a, b, c) + tail, after) == [a, b, c] + rest
    ensures FullLength(Quad(a, b, c) + tail) == 4 + FullLength(tail)
  {
    var quad := Quad(a, b, c);
    IndexOfDigit(c & 0x3F);
    FullLengthPrepend(quad, tail);
    TripleOfQuad(a, b, c);
    DecodedPeel(quad + tail, after);
    assert (quad + tail)[4..] == tail;
  }

  /** The text decodes to the data, all but the last one or two bytes of it from whole groups. */
  predicate Gives(text: seq<bv8>, after: bv8, data: seq<bv8>) {
    Decoded(text, after) == data && FullLength(text) == |data| / 3 * 4
  }

  lemma GivesMore(data: seq<bv8>, tail: seq<bv8>, after: bv8)
    requires |data| >= 3 && Gives(tail, after, data[3..])
    ensures Gives(Quad(data[0], data[1], data[2]) + tail, after, data)
  {
    Thirds(|data|);
    RoundTripStep(data[0], data[1], data[2], data[3..], tail, after);
    assert data == [data[0], data[1], data[2]] + data[3..];
  }

  /**
   * Decoding undoes the encoding of every byte string, whether none, some or
   * all of the padding is there and whatever byte follows the text.
   */
  lemma {:induction false} RoundTrip(data: seq<bv8>, p: nat, after: bv8)
    requires p <= (3 - |data| % 3) % 3
    ensures Gives(Padded(data, p), after, data)
    decreases |data|
  {
    if |data| < 3 {
      PaddedShort(data, p, after);
    } else {
      assert p <= (3 - |data[3..]| % 3) % 3 by {
        Thirds(|data|);
      }
      RoundTrip(data[3..], p, after);
      var tail := Padded(data[3..], p);
      GivesMore(data, tail, after);
      PaddedPeel(data, p);
    }
  }

  /** An encoding is decoded, to the bytes it came from, exactly when they are at least three and they fit. */
  lemma EncodingsAccepted(data: seq<bv8>, after: bv8, maxOutLength: nat)
    ensures Decoded(Encoded(data), after) == data
    ensures Accepts(Encoded(data), after, maxOutLength) <==> 3 <= |data| <= maxOutLength
  {
    RoundTrip(data, (3 - |data| % 3) % 3, after);
  }

  // ---------- Base64_decode ----------

  /** How many bytes a call stores: everything that fits, unless the call is rejected at once. */
  function Stored(text: seq<bv8>, after: bv8, maxOutLength: nat): (n: nat)
    ensures n <= |Decoded(text, after)| && n <= maxOutLength
  {
    var outLength := FullLength(text) / 4 * 3 + Flag(HasPad(text));
    if FullLength(text) == 0 || outLength > maxOutLength then 0
    else if |Decoded(text, after)| <= maxOutLength then |Decoded(text, after)| else maxOutLength
  }

  lemma TriplesFrom(text: seq<bv8>, i: nat)
    requires i + 4 <= |text| && |text| % 4 == 0 && i % 4 == 0
    ensures Triples(text[i..]) == Triple(text[i], text[i + 1], text[i + 2], text[i + 3]) + Triples(text[i + 4..])
  {
    assert text[i..][4..] == text[i + 4..];
  }

  /** The loop body's three stores. */
  method PutTriple(out: array<bv8>, j: nat, n: bv32, ghost was: seq<bv8>, ghost done: seq<bv8>)
    requires j == |done| && j + 3 <= out.Length == |was| && out[..] == Overlaid(was, done)
    modifies out
    ensures out[..] == Overlaid(was, done + [High(n), Middle(n), Low(n)])
  {
    out[j] := High(n);
    out[j + 1] := Middle(n);
    out[j + 2] := Low(n);
  }

  lemma MoreDone(text: seq<bv8>, i: nat, groups: nat, total: nat, done: seq<bv8>)
    requires i == 4 * groups < |text| == 4 * total
    ensures (|text| - i) % 4 == 0 && (|text| - i - 4) % 4 == 0 && i + 4 <= |text|
    ensures done + Triples(text[i..])
         == done + Triple(text[i], text[i + 1], text[i + 2], text[i + 3]) + Triples(text[i + 4..])
  {
    TriplesFrom(text, i);
  }

  /** The loop over whole groups of four characters. */
  method PutTriples(text: seq<bv8>, out: array<bv8>) returns (j: nat)
    requires |text| % 4 == 0 && |text| / 4 * 3 <= out.Length
    modifies out
    ensures j == |text| / 4 * 3 && out[..] == Overlaid(old(out[..]), Triples(text))
  {
    j := 0;
    var i := 0;
    ghost var groups, total, goal, was, done := 0, |text| / 4, Triples(text), out[..], [];
    while i < |text|
      invariant 0 <= i == 4 * groups <= |text| == 4 * total && j == 3 * groups == |done|
      invariant |text[i..]| % 4 == 0
      invariant goal == done + Triples(text[i..])
      invariant out[..] == Overlaid(was, done)
    {
      MoreDone(text, i, groups, total, done);
      var n := Value(text[i], text[i + 1], text[i + 2], text[i + 3]);
      PutTriple(out, j, n, was, done);
      done := done + [High(n), Middle(n), Low(n)];
      i := i + 4;
      j := j + 3;
      groups := groups + 1;
    }
    assert done == goal;
  }

  /** The two numbers that the last, incomplete group is read into. */
  lemma TailNumbers(text: seq<bv8>, after: bv8, len: nat, n: bv32)
    requires HasPad(text) && len == FullLength(text)
    requires n == (Index(text[len]) << 18) | (Index(At(text, after, len + 1)) << 12)
    ensures Tail(text, after)[0] == High(n)
    ensures |Tail(text, after)| == 2 <==> |text| > len + 2 && text[len + 2] != PAD
    ensures |Tail(text, after)| == 2 ==> Tail(text, after)[1] == Middle(n | (Index(text[len + 2]) << 6))
  {
  }

  /** The bytes of the last, incomplete group; the second one only if it fits. */
  method PutTail(text: seq<bv8>, after: bv8, out: array<bv8>, len: nat, outLength: nat, maxOutLength: nat)
    returns (status: int)
    requires HasPad(text) && len == FullLength(text) && 1 <= outLength <= maxOutLength <= out.Length
    modifies out
    ensures status == if outLength - 1 + |Tail(text, after)| <= maxOutLength then 0 else 1
    ensures var first := old(out[..])[outLength - 1 := Tail(text, after)[0]];
            out[..] == if status == 0 && |Tail(text, after)| == 2 then first[outLength := Tail(text, after)[1]]
                       else first
  {
    status := 0;
    var n := (Index(text[len]) << 18) | (Index(At(text, after, len + 1)) << 12);
    ghost var tail, first := Tail(text, after), out[..];
    TailNumbers(text, after, len, n);
    out[outLength - 1] := High(n);
    first := first[outLength - 1 := tail[0]];
    assert out[..] == first;
    if |text| > len + 2 && text[len + 2] != PAD {
      if outLength + 1 > maxOutLength {
        status := 1;
      } else {
        n := n | (Index(text[len + 2]) << 6);
        out[outLength] := Middle(n);
        assert out[..] == first[outLength := tail[1]];
      }
    }
  }

  /** What the two stores after the whole groups add up to. */
  lemma TailStored(text: seq<bv8>, after: bv8, maxOutLength: nat, was: seq<bv8>, whole: seq<bv8>, j: nat)
    requires HasPad(text) && FullLength(text) != 0 && whole == Triples(text[..FullLength(text)]) && j == |whole|
    requires j + 1 <= maxOutLength <= |was|
    ensures Accepts(text, after, maxOutLength) <==> j + |Tail(text, after)| <= maxOutLength
    ensures var first := Overlaid(was, whole)[j := Tail(text, after)[0]];
            Overlaid(was, Decoded(text, after)[..Stored(text, after, maxOutLength)])
            == if Accepts(text, after, maxOutLength) && |Tail(text, after)| == 2
               then first[j + 1 := Tail(text, after)[1]] else first
  {
    var tail := Tail(text, after);
    assert Decoded(text, after) == whole + tail;
    OverlaidThenSet(was, whole, tail[0]);
    if |tail| == 1 {
      assert tail == [tail[0]];
    } else {
      assert tail == [tail[0]] + [tail[1]];
      assert whole + tail == whole + [tail[0]] + [tail[1]];
      if j + 2 <= maxOutLength {
        OverlaidThenSet(was, whole + [tail[0]], tail[1]);
      }
    }
  }

  /** Where the sum in the length wraps around, so does the difference, and the product comes out right. */
  lemma LengthInModulus(n: nat, pad: nat)
    requires n < SIZE_MODULUS && pad <= 1 && (pad == 0 ==> n % 4 == 0) && (n == 0 ==> pad == 0)
    ensures ((n + 3) % SIZE_MODULUS / 4 - pad) % SIZE_MODULUS * 4 % SIZE_MODULUS == ((n + 3) / 4 - pad) * 4
  {
    if n + 3 < SIZE_MODULUS {
      assert (n + 3) % SIZE_MODULUS == n + 3;
      assert ((n + 3) / 4 - pad) % SIZE_MODULUS == (n + 3) / 4 - pad;
    } else {
      assert (n + 3) % SIZE_MODULUS == n + 3 - SIZE_MODULUS < 4;
      assert (0 - pad) % SIZE_MODULUS == SIZE_MODULUS - pad;
    }
  }

  /** The padding test and the two lengths, in wrapping 64-bit arithmetic. */
  method Lengths(text: seq<bv8>) returns (padBool: bool, len: nat, outLength: nat)
    requires |text| < SIZE_MODULUS
    ensures padBool == HasPad(text) && len == FullLength(text) && outLength == len / 4 * 3 + Flag(padBool)
    ensures outLength == |Triples(text[..len])| + Flag(padBool)
  {
    padBool := |text| > 0 && (|text| % 4 != 0 || text[|text| - 1] == PAD);
    var padUint := 0;
    if padBool {
      padUint := 1;
    }
    LengthInModulus(|text|, padUint);
    len := ((|text| + 3) % SIZE_MODULUS / 4 - padUint) % SIZE_MODULUS * 4 % SIZE_MODULUS;
    assert len == FullLength(text);
    outLength := len / 4 * 3 + padUint;
  }

  method Decode(text: seq<bv8>, after: bv8, out: array<bv8>, maxOutLength: nat) returns (status: int)
    requires |text| < SIZE_MODULUS && maxOutLength <= out.Length
    modifies out
    ensures status == if Accepts(text, after, maxOutLength) then 0 else 1
    ensures out[..] == Overlaid(old(out[..]), Decoded(text, after)[..Stored(text, after, maxOutLength)])
  {
    status := 0;
    ghost var was := out[..];
    var padBool, len, outLength := Lengths(text);
    if outLength > maxOutLength {
      status := 1;
    }
    if len == 0 {
      status := 1;
    }
    if status == 0 {
      var j := PutTriples(text[..len], out);
      if padBool {
        TailStored(text, after, maxOutLength, was, Triples(text[..len]), j);
        status := PutTail(text, after, out, len, outLength, maxOutLength);
      }
    }
  }
}
