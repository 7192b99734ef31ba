/** The bit reversal that the CRC code applies to input bytes and to the finished register. */
module BitManipulation {
  import opened Bits

  /**
   * What `reflect` computes on a 32-bit operand: its `n` low bits in reverse order, all higher bits clear. With more
   * than 32 bits the masked shift count wraps around, and all bits are reversed and then rotated.
   */
  function Reflected(data: Word, n: nat): (r: Word)
    requires |data| == 32
    ensures |r| == 32
  {
    if n <= 32 then Zeros(32 - n) + Reverse(data[32 - n..])
    else Reverse(data)[n % 32..] + Reverse(data)[..n % 32]
  }

  /** The bit of the operand, counted from the lowest, that index j of the result shows. */
  function Shown(n: nat, j: nat): (k: nat)
    requires j < 32
    ensures k < 32
  {
    (n + j) % 32
  }

  lemma PrefixedAt(zeros: Word, v: Word, j: nat)
    requires j < |zeros| + |v|
    ensures (zeros + v)[j] == if j < |zeros| then zeros[j] else v[j - |zeros|]
  {
  }

  lemma ReflectedLow(data: Word, n: nat, j: nat)
    requires |data| == 32 && j < 32 && n <= 32
    ensures Reflected(data, n)[j] == (Shown(n, j) < n && data[31 - Shown(n, j)])
  {
    ShownWraps(n, if n == 32 then 0 else n, j);
    var low := data[32 - n..];
    PrefixedAt(Zeros(32 - n), Reverse(low), j);
    if 32 - n <= j {
      var k := j - (32 - n);
      assert Shown(n, j) == k && Reverse(low)[k] == low[n - 1 - k] == data[31 - k];
    }
  }

  function Wrapped(m: nat, j: nat): (k: nat)
    requires m <= 32 && j < 32
    ensures k < 32
  {
    if m + j < 32 then m + j else m + j - 32
  }

  lemma RotatedAt(v: Word, r: Word, m: nat, j: nat)
    requires m <= |v| == 32 && j < 32 && r == v[m..] + v[..m]
    ensures r[j] == v[Wrapped(m, j)]
  {
  }

  lemma ShownWraps(n: nat, m: nat, j: nat)
    requires j < 32 && m == n % 32
    ensures Shown(n, j) == Wrapped(m, j)
  {
    assert n + j == 32 * (n / 32) + (m + j);
  }

  lemma RotatedReverseAt(data: Word, v: Word, r: Word, m: nat, j: nat)
    requires |data| == 32 && j < 32 && m <= 32 && v == Reverse(data) && r == v[m..] + v[..m]
    ensures r[j] == data[31 - Wrapped(m, j)]
  {
    RotatedAt(v, r, m, j);
  }

  lemma ReflectedHigh(data: Word, n: nat, j: nat)
    requires |data| == 32 && j < 32 && n > 32
    ensures Reflected(data, n)[j] == data[31 - Shown(n, j)]
  {
    ShownWraps(n, n % 32, j);
    RotatedReverseAt(data, Reverse(data), Reflected(data, n), n % 32, j);
  }

  /** Bit by bit, for every count: the bits below n are shown, and nothing else. */
  lemma ReflectedAt(data: Word, n: nat, j: nat)
    requires |data| == 32 && j < 32
    ensures Reflected(data, n)[j] == (Shown(n, j) < n && data[31 - Shown(n, j)])
  {
    if n <= 32 {
      ReflectedLow(data, n, j);
    } else {
      ReflectedHigh(data, n, j);
    }
  }

  /** The bit placed at step k lands where index j shows bit k. */
  lemma PlaceOf(n: nat, k: nat, j: nat)
    requires k < n && k < 32 && j < 32
    ensures Shown(n, j) == k <==> j == 31 - (n - 1 - k) % 32
  {
    var q, m := (n - 1 - k) / 32, (n - 1 - k) % 32;
    assert n == 32 * q + m + 1 + k;
    if j == 31 - m {
      assert n + j == 32 * (q + 1) + k;
    } else if j < 31 - m {
      assert n + j == 32 * q + (m + 1 + k + j);
    } else {
      assert n + j == 32 * (q + 1) + (m + j - 31 + k);
    }
  }

  /** The accumulator after the bits below `done` have been placed. */
  ghost predicate Placed(reflection: Word, data: Word, n: nat, done: nat) {
    |reflection| == |data| == 32
    && forall j :: 0 <= j < 32 ==> reflection[j] == (Shown(n, j) < done && data[31 - Shown(n, j)])
  }

  lemma PlaceNext(r: Word, data: Word, n: nat, done: nat, at: nat)
    requires Placed(r, data, n, done) && done < n && at == 31 - (n - 1 - done) % 32
    ensures Placed(if done < 32 && data[31 - done] then r[at := true] else r, data, n, done + 1)
  {
    if done < 32 {
      forall j | 0 <= j < 32 ensures (Shown(n, j) == done) == (j == at) {
        PlaceOf(n, done, j);
      }
    }
  }

  lemma PlacedAll(r: Word, data: Word, n: nat)
    requires Placed(r, data, n, n)
    ensures r == Reflected(data, n)
  {
    forall j | 0 <= j < 32 ensures r[j] == Reflected(data, n)[j] {
      ReflectedAt(data, n, j);
    }
  }

  /** 1 << (0x1F & ((n_bits - 1) - bit)), as an index from the most significant end. */
  function Place(n: nat, bit: nat): (at: nat)
    requires bit < n
    ensures at < 32 && at == 31 - (n - 1 - bit) % 32
  {
    31 - (n - 1 - bit) % 32
  }

  /** The operand after `bit` shifts to the right. */
  function Remaining(data: Word, bit: nat): (r: Word)
    requires |data| == 32
    ensures |r| == 32
  {
    if bit <= 32 then Shr(data, bit) else Zeros(32)
  }

  lemma RemainingNext(data: Word, bit: nat)
    requires |data| == 32
    ensures Shr(Remaining(data, bit), 1) == Remaining(data, bit + 1)
    ensures Remaining(data, bit)[31] == (bit < 32 && data[31 - bit])
  {
    if bit < 32 {
      ShrShr(data, bit, 1);
    }
  }

  method Reflect(data: Word, nBits: nat) returns (reflection: Word)
    requires |data| == 32
    ensures reflection == Reflected(data, nBits)
  {
    reflection := Zeros(32);
    var tempData := data;
    assert tempData == Remaining(data, 0);
    for bit := 0 to nBits
      invariant Placed(reflection, data, nBits, bit)
      invariant tempData == Remaining(data, bit)
    {
      RemainingNext(data, bit);
      PlaceNext(reflection, data, nBits, bit, Place(nBits, bit));
      if tempData[31] {
        reflection := reflection[Place(nBits, bit) := true];
      }
      tempData := Shr(tempData, 1);
    }
    PlacedAll(reflection, data, nBits);
  }

  /** A byte or register of width `n` is widened to 32 bits, reflected and cast back to its own width. */
  lemma ReflectedNarrow(a: Word)
    requires |a| <= 32
    ensures Reflected(Zeros(32 - |a|) + a, |a|) == Zeros(32 - |a|) + Reverse(a)
  {
    assert (Zeros(32 - |a|) + a)[32 - |a|..] == a;
  }
}
