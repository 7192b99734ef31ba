/** Reading a decimal number into 32 bits. */
module ParseUint {
  import opened Common

  const UINT32_MAX: nat := 0xFFFF_FFFF
  const MAX_EXPONENT: nat := 10

  predicate IsDigit(c: char) {
    '0' <= c <= '9'
  }

  predicate AllDigits(s: string) {
    forall i :: 0 <= i < |s| ==> IsDigit(s[i])
  }

  function Digit(c: char): (d: nat)
    requires IsDigit(c)
    ensures d <= 9
  {
    c as int - '0' as int
  }

  /** The number that a string of decimal digits denotes. */
  function Number(s: string): nat
    requires AllDigits(s)
  {
    if s == "" then 0 else 10 * Number(s[..|s| - 1]) + Digit(s[|s| - 1])
  }

  function Power(n: nat): (p: nat)
    ensures p >= 1
  {
    if n == 0 then 1 else 10 * Power(n - 1)
  }

  lemma {:induction false} NumberBelowPower(s: string)
    requires AllDigits(s)
    ensures Number(s) < Power(|s|)
  {
    if s != "" {
      NumberBelowPower(s[..|s| - 1]);
    }
  }

  lemma {:induction false} PowerAdds(a: nat, b: nat)
    ensures Power(a) * Power(b) == Power(a + b)
  {
    if a > 0 {
      PowerAdds(a - 1, b);
      assert 10 * Power(a - 1) * Power(b) == 10 * (Power(a - 1) * Power(b));
    }
  }

  lemma {:induction false} PowerMonotone(a: nat, b: nat)
    requires a <= b
    ensures Power(a) <= Power(b)
  {
    if a < b {
      PowerMonotone(a, b - 1);
    }
  }

  lemma PowerOfNine()
    ensures Power(9) == 1_000_000_000
  {
    assert Power(3) == 1000;
    PowerAdds(3, 3);
    PowerAdds(6, 3);
  }

  /** The table of powers; for exponents that it does not hold, the caller's result stays as it was. */
  method QuickPow10(exponent: nat, before: nat) returns (success: bool, result: nat)
    ensures success <==> exponent < MAX_EXPONENT
    ensures result == if success then Power(exponent) else before
  {
    var pow10 := [1, 10, 100, 1000, 1_0000, 10_0000, 100_0000, 1000_0000, 1_0000_0000, 10_0000_0000];
    success, result := false, before;
    if exponent < MAX_EXPONENT {
      PowerTable(exponent, pow10);
      result := pow10[exponent];
      success := true;
    }
  }

  lemma {:induction false} PowerTable(n: nat, table: seq<nat>)
    requires n < |table| && table[0] == 1 && forall i :: 0 < i < |table| ==> table[i] == 10 * table[i - 1]
    ensures table[n] == Power(n)
  {
    if n > 0 {
      PowerTable(n - 1, table);
    }
  }

  /** How many of the first `length` characters are digits before the first one that is not. */
  function DigitRun(s: string, length: nat): (n: nat)
    requires length <= |s|
    ensures n <= length && AllDigits(s[..n]) && (n < length ==> !IsDigit(s[n]))
  {
    if length == 0 then 0
    else
      var n := DigitRun(s, length - 1);
      if n == length - 1 && IsDigit(s[n]) then length else n
  }

  lemma DigitRunIs(s: string, length: nat, n: nat)
    requires n <= length <= |s| && AllDigits(s[..n]) && (n < length ==> !IsDigit(s[n]))
    ensures DigitRun(s, length) == n && (n == length <==> AllDigits(s[..length]))
  {
    if n < length {
      assert s[..length][n] == s[n];
    }
  }

  /** The first n digits, counted as the leading digits of a number with length digits. */
  function Leading(s: string, n: nat, length: nat): nat
    requires n <= |s| && n <= length && AllDigits(s[..n])
  {
    Number(s[..n]) * Power(length - n)
  }

  lemma Distribute(a: nat, d: nat, p: nat)
    ensures (10 * a + d) * p == a * (10 * p) + d * p
  {
  }

  lemma ProductBelow(a: nat, b: nat, p: nat)
    requires a < b && p >= 1
    ensures a * p < b * p
  {
  }

  lemma LeadingBelow(s: string, n: nat, length: nat)
    requires n <= length <= 9 && length <= |s| && AllDigits(s[..n])
    ensures Leading(s, n, length) < Power(9)
  {
    NumberBelowPower(s[..n]);
    ProductBelow(Number(s[..n]), Power(n), Power(length - n));
    PowerAdds(n, length - n);
    PowerMonotone(length, 9);
  }

  /** Adding the next digit times its power gives the longer prefix, and stays below 10^9. */
  lemma LeadingStep(s: string, n: nat, length: nat)
    requires n < length <= 9 && length <= |s| && AllDigits(s[..n]) && IsDigit(s[n])
    ensures AllDigits(s[..n + 1])
    ensures Leading(s, n + 1, length) == Leading(s, n, length) + Digit(s[n]) * Power(length - n - 1)
    ensures Leading(s, n + 1, length) < Power(9)
  {
    var a, d, p := Number(s[..n]), Digit(s[n]), Power(length - n - 1);
    assert Number(s[..n + 1]) == 10 * a + d by {
      assert s[..n + 1][..n] == s[..n];
    }
    Distribute(a, d, p);
    LeadingBelow(s, n + 1, length);
  }

  /**
   * The state of the loop before character i. On up to nine characters the sum is the number of the digits so far, in
   * their places; on more than ten it stays zero, and the loop stops at the first power that is not in the table.
   */
  ghost predicate Reached(str: string, i: nat, length: nat, success: bool, integer: nat)
    requires i <= length <= |str| && length != 10
  {
    if length > 10 then integer == 0 && (success ==> i == 0)
    else
      && AllDigits(str[..i])
      && integer == Leading(str, i, length) < Power(9)
      && (!success ==> i < length && !IsDigit(str[i]))
  }

  lemma SumFits(before: nat, product: nat)
    requires before + product < UINT32_MODULUS
    ensures (before + product % UINT32_MODULUS) % UINT32_MODULUS == before + product
  {
  }

  lemma ReachedNext(str: string, i: nat, length: nat, before: nat, product: nat)
    requires i < length <= 9 && length <= |str| && Reached(str, i, length, true, before) && IsDigit(str[i])
    requires product == Digit(str[i]) * Power(length - (i + 1))
    ensures before + product < UINT32_MODULUS && Reached(str, i + 1, length, true, before + product)
  {
    LeadingStep(str, i, length);
    PowerOfNine();
  }

  /** The accepting branch of the loop, in wrapping 32-bit arithmetic. */
  method AddDigit(str: string, i: nat, length: nat, before: nat) returns (success: bool, integer: nat)
    requires i < length <= |str| && length != 10 && Reached(str, i, length, true, before) && IsDigit(str[i])
    ensures Reached(str, i + 1, length, success, integer)
  {
    var digit := Digit(str[i]);
    var result := 0;
    success, result := QuickPow10(length - (i + 1), result);
    integer := (before + digit * result % UINT32_MODULUS) % UINT32_MODULUS;
    if length <= 9 {
      ReachedNext(str, i, length, before, digit * result);
      SumFits(before, digit * result);
    }
  }

  /** The loop over the digits. */
  method SumDigits(str: string, length: nat) returns (success: bool, integer: nat)
    requires length <= |str| <= 255 && length != 10
    ensures length > 10 ==> !success && integer == 0
    ensures length <= 9 ==> (success <==> AllDigits(str[..length]))
    ensures length <= 9 ==> integer == Leading(str, DigitRun(str, length), length) < Power(9)
  {
    success, integer := true, 0;
    var i := 0;
    while length > i && success
      invariant 0 <= i <= length
      invariant Reached(str, i, length, success, integer)
      decreases length - i, success
    {
      if IsDigit(str[i]) {
        success, integer := AddDigit(str, i, length, integer);
        i := i + 1;
      } else {
        success := false;
      }
    }
    if length <= 9 {
      DigitRunIs(str, length, i);
    }
  }

  predicate Accepts(str: string) {
    |str| <= MAX_EXPONENT && AllDigits(str) && Number(str) <= UINT32_MAX
  }

  /** What is left behind by a rejected call: the digits before the one that stopped it, in their places. */
  function Remnant(str: string): nat {
    var length := if |str| == MAX_EXPONENT then 9 else |str|;
    if length > 9 then 0 else Leading(str, DigitRun(str, length), length)
  }

  lemma NumberOfTen(str: string)
    requires |str| == 10 && AllDigits(str[..9])
    ensures DigitRun(str, 9) == 9 && Leading(str, 9, 9) == Number(str[..9])
    ensures IsDigit(str[9]) ==> AllDigits(str) && Number(str) == 10 * Number(str[..9]) + Digit(str[9])
    ensures AllDigits(str) ==> IsDigit(str[9])
  {
    DigitRunIs(str, 9, 9);
  }

  lemma WholeRun(str: string)
    requires |str| <= 9 && AllDigits(str)
    ensures Leading(str, DigitRun(str, |str|), |str|) == Number(str) < Power(9)
  {
    assert str[..|str|] == str;
    DigitRunIs(str, |str|, |str|);
    LeadingBelow(str, |str|, |str|);
  }

  /** The check of the tenth digit. */
  method AddTenth(str: string, before: nat) returns (success: bool, integer: nat)
    requires |str| == 10 && AllDigits(str[..9]) && before == Number(str[..9]) < Power(9)
    ensures success <==> Accepts(str)
    ensures integer == if success then Number(str) else before
  {
    NumberOfTen(str);
    PowerOfNine();
    success, integer := true, before;
    if IsDigit(str[9]) {
      var digit := Digit(str[9]);
      if integer > UINT32_MAX / 10 || (integer == UINT32_MAX / 10 && digit > UINT32_MAX % 10) {
        success := false;
      } else {
        integer := integer * 10 % UINT32_MODULUS;
        integer := (integer + digit) % UINT32_MODULUS;
      }
    } else {
      success := false;
    }
  }

  lemma NotAllDigits(str: string)
    requires |str| == 10 && !AllDigits(str[..9])
    ensures !AllDigits(str)
  {
    var i :| 0 <= i < 9 && !IsDigit(str[..9][i]);
    assert !IsDigit(str[i]);
  }

  method StringToUint32(str: string) returns (success: bool, integer: nat)
    requires |str| <= 255
    ensures success <==> Accepts(str)
    ensures integer == if success then Number(str) else Remnant(str)
  {
    var checkOverflow := false;
    var length := |str|;
    if |str| == MAX_EXPONENT {
      checkOverflow := true;
      length := |str| - 1;
    }
    success, integer := SumDigits(str, length);
    if checkOverflow {
      if success {
        NumberOfTen(str);
        success, integer := AddTenth(str, integer);
      } else {
        NotAllDigits(str);
      }
    } else if length <= 9 {
      assert str[..length] == str;
      if success {
        PowerOfNine();
        WholeRun(str);
      }
    }
  }

  /** Where the rule on the length departs from the value: eleven characters that denote one, and none at all. */
  lemma LengthRules()
    ensures !Accepts("00000000001") && AllDigits("00000000001") && Number("00000000001") == 1
    ensures Accepts("") && Number("") == 0
  {
    ZerosThenOne("0000000000");
    assert "00000000001" == "0000000000" + "1";
  }

  lemma {:induction false} ZeroDigits(zeros: string)
    requires forall i :: 0 <= i < |zeros| ==> zeros[i] == '0'
    ensures AllDigits(zeros) && Number(zeros) == 0
  {
    if zeros != "" {
      ZeroDigits(zeros[..|zeros| - 1]);
    }
  }

  lemma ZerosThenOne(zeros: string)
    requires forall i :: 0 <= i < |zeros| ==> zeros[i] == '0'
    ensures AllDigits(zeros + "1") && Number(zeros + "1") == 1
  {
    ZeroDigits(zeros);
    assert (zeros + "1")[..|zeros|] == zeros;
  }

  // ---------- the other direction ----------

  /** The decimal digits of a number, without leading zeros. */
  function Decimal(n: nat): (s: string)
    ensures s != "" && AllDigits(s)
  {
    if n < 10 then [('0' as int + n) as char] else Decimal(n / 10) + [('0' as int + n % 10) as char]
  }

  /** Reading undoes writing. */
  lemma {:induction false} NumberOfDecimal(n: nat)
    ensures Number(Decimal(n)) == n
  {
    if n < 10 {
      assert Decimal(n)[..0] == "";
    } else {
      NumberOfDecimal(n / 10);
      assert Decimal(n)[..|Decimal(n)| - 1] == Decimal(n / 10);
    }
  }

  lemma {:induction false} DecimalLength(n: nat, k: nat)
    requires k >= 1 && n < Power(k)
    ensures |Decimal(n)| <= k
  {
    if n >= 10 {
      assert Power(0) == 1 && Power(1) == 10;
      DecimalLength(n / 10, k - 1);
    }
  }

  /** Every 32-bit number has an accepted text, and no larger number has one. */
  lemma DecimalAccepted(n: nat)
    ensures Accepts(Decimal(n)) <==> n <= UINT32_MAX
  {
    NumberOfDecimal(n);
    if n <= UINT32_MAX {
      PowerOfNine();
      DecimalLength(n, 10);
    }
  }

  // ---------- every text ----------

  predicate AllZero(s: string) {
    forall i :: 0 <= i < |s| ==> s[i] == '0'
  }

  /** Zeros in front change nothing. */
  lemma {:induction false} NumberBehindZeros(zeros: string, s: string)
    requires AllZero(zeros) && AllDigits(s)
    ensures AllDigits(zeros + s) && Number(zeros + s) == Number(s)
    decreases |s|
  {
    if s == "" {
      assert zeros + s == zeros;
      ZeroDigits(zeros);
    } else {
      NumberBehindZeros(zeros, s[..|s| - 1]);
      assert (zeros + s)[..|zeros + s| - 1] == zeros + s[..|s| - 1];
    }
  }

  /** Leading zeros count for the length and for nothing else. */
  lemma LeadingZerosAccepted(zeros: string, n: nat)
    requires AllZero(zeros)
    ensures AllDigits(zeros + Decimal(n)) && Number(zeros + Decimal(n)) == n
    ensures Accepts(zeros + Decimal(n)) <==> |zeros| + |Decimal(n)| <= 10 && n <= 4294967295
  {
    NumberBehindZeros(zeros, Decimal(n));
    NumberOfDecimal(n);
  }

  /** Every text of digits is such a text, */
  lemma {:induction false} DigitsAreDecimal(str: string) returns (zeros: string, n: nat)
    requires str != "" && AllDigits(str)
    ensures AllZero(zeros) && str == zeros + Decimal(n)
  {
    var front, d := str[..|str| - 1], Digit(str[|str| - 1]);
    assert str == front + [str[|str| - 1]];
    if front == "" {
      zeros, n := "", d;
    } else {
      var z, m := DigitsAreDecimal(front);
      if m == 0 {
        zeros, n := z + "0", d;
        assert front == z + "0";
      } else {
        zeros, n := z, 10 * m + d;
        assert n / 10 == m && n % 10 == d;
      }
    }
  }

  /** and a text with any other character is rejected. */
  lemma OtherCharacterRejected(str: string, i: nat)
    requires i < |str| && !('0' <= str[i] <= '9')
    ensures !Accepts(str)
  {
    assert !IsDigit(str[i]);
  }

  lemma TenTimes(a: nat, p: nat)
    ensures 10 * (a * p) == a * (10 * p)
  {
  }

  /** Zeros behind multiply. */
  lemma {:induction false} NumberBeforeZeros(s: string, zeros: string)
    requires AllDigits(s) && AllZero(zeros)
    ensures AllDigits(s + zeros) && Number(s + zeros) == Number(s) * Power(|zeros|)
    decreases |zeros|
  {
    if zeros == "" {
      assert s + zeros == s;
    } else {
      var fewer := zeros[..|zeros| - 1];
      NumberBeforeZeros(s, fewer);
      assert (s + zeros)[..|s + zeros| - 1] == s + fewer;
      TenTimes(Number(s), Power(|fewer|));
    }
  }

  lemma RunOfDigits(digits: string, rest: string)
    requires AllDigits(digits) && (rest != "" ==> !IsDigit(rest[0])) && |digits| + |rest| <= 9
    ensures Remnant(digits + rest) == Number(digits) * Power(|rest|)
  {
    assert (digits + rest)[..|digits|] == digits;
    DigitRunIs(digits + rest, |digits + rest|, |digits|);
  }

  lemma RunOfNine(digits: string, rest: string, tenth: char)
    requires AllDigits(digits) && (rest != "" ==> !IsDigit(rest[0])) && |digits| + |rest| == 9
    ensures Remnant(digits + rest + [tenth]) == Number(digits) * Power(|rest|)
  {
    var str := digits + rest + [tenth];
    assert str[..|digits|] == digits;
    if rest != "" {
      assert str[|digits|] == rest[0];
    }
    DigitRunIs(str, 9, |digits|);
  }

  /**
   * What a rejected call leaves: the number of the digits before the first other character, with zeros from there on.
   * A tenth character is ignored, and longer texts leave zero.
   */
  lemma RemnantIs(digits: string, rest: string, zeros: string, tenth: char)
    requires AllDigits(digits) && (rest != "" ==> !IsDigit(rest[0])) && AllZero(zeros) && |zeros| == |rest|
    ensures AllDigits(digits + zeros)
    ensures |digits| + |rest| <= 9 ==> Remnant(digits + rest) == Number(digits + zeros)
    ensures |digits| + |rest| == 9 ==> Remnant(digits + rest + [tenth]) == Number(digits + zeros)
    ensures |digits| + |rest| > 10 ==> Remnant(digits + rest) == 0
  {
    NumberBeforeZeros(digits, zeros);
    if |digits| + |rest| <= 9 {
      RunOfDigits(digits, rest);
    }
    if |digits| + |rest| == 9 {
      RunOfNine(digits, rest, tenth);
    }
  }
}
