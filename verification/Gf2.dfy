/**
 * Polynomials over GF(2) as coefficient words, highest power first, and division by a monic polynomial.
 * A generator of degree w is given by its w low coefficients p; its leading coefficient is an implicit one.
 */
module Gf2 {
  import opened Bits

  /** The monic polynomial x^w + p(x). */
  function Monic(p: Word): (g: Word)
    ensures |g| == |p| + 1 && g[0]
  {
    [true] + p
  }

  /** Polynomial product: the sum of the shifted copies of `g` that the coefficients of `q` select. */
  function Mul(q: Word, g: Word): (r: Word)
    requires |g| > 0
    ensures |r| == |q| + |g| - 1
  {
    if q == [] then Zeros(|g| - 1)
    else Xor(Scaled(q[0], g) + Zeros(|q| - 1), [false] + Mul(q[1..], g))
  }

  function Scaled(c: bool, g: Word): (r: Word)
    ensures |r| == |g|
  {
    if c then g else Zeros(|g|)
  }

  /** d = q * (x^w + p) + r with deg r < w. */
  ghost predicate Divides(d: Word, p: Word, q: Word, r: Word) {
    |r| == |p| && |d| == |q| + |p| && d == Xor(Mul(q, Monic(p)), Zeros(|q|) + r)
  }

  /** `r` is a remainder of `d` modulo x^w + p(x). */
  ghost predicate IsRemainder(d: Word, p: Word, r: Word) {
    exists q: Word :: Divides(d, p, q, r)
  }

  /** `d` is a multiple of x^w + p(x). */
  ghost predicate IsMultiple(d: Word, p: Word) {
    exists q: Word :: IsProduct(d, q, Monic(p))
  }

  ghost predicate IsProduct(d: Word, q: Word, g: Word)
    requires |g| > 0
  {
    d == Mul(q, g)
  }

  /** One step of long division: cancel the leading coefficient of a dividend of degree at least w. */
  function DivStep(d: Word, p: Word): (r: Word)
    requires |p| < |d|
    ensures |r| == |d| - 1
  {
    if d[0] then Xor(d[1..], p + Zeros(|d| - 1 - |p|)) else d[1..]
  }

  function Reduce(d: Word, p: Word): (r: Word)
    requires |p| <= |d|
    ensures |r| == |p|
    decreases |d|
  {
    if |d| == |p| then d else Reduce(DivStep(d, p), p)
  }

  function Quotient(d: Word, p: Word): (q: Word)
    requires |p| <= |d|
    ensures |q| == |d| - |p|
    decreases |d|
  {
    if |d| == |p| then [] else [d[0]] + Quotient(DivStep(d, p), p)
  }

  // ---------- division is correct and its remainder unique ----------

  lemma DivStepUndone(d: Word, p: Word)
    requires |p| < |d|
    ensures d == Xor(Scaled(d[0], Monic(p)) + Zeros(|d| - |p| - 1), [false] + DivStep(d, p))
  {
    var z := Zeros(|d| - |p| - 1);
    if d[0] {
      assert Monic(p) + z == [true] + (p + z);
      XorHead(d, p + z);
    } else {
      assert d == [false] + d[1..];
      XorZeros(d, |p| + 1);
    }
  }

  lemma MulCons(b: bool, q: Word, g: Word)
    requires |g| > 0
    ensures Mul([b] + q, g) == Xor(Scaled(b, g) + Zeros(|q|), [false] + Mul(q, g))
  {
    assert ([b] + q)[1..] == q;
  }

  lemma DivisionIdentityStep(d: Word, p: Word, m: Word, rem: Word)
    requires |p| < |d| && |m| == |rem| == |d| - 1
    requires DivStep(d, p) == Xor(m, rem)
    ensures d == Xor(Xor(Scaled(d[0], Monic(p)) + Zeros(|d| - |p| - 1), [false] + m), [false] + rem)
  {
    DivStepUndone(d, p);
    XorCons(m, rem);
    XorAssoc(Scaled(d[0], Monic(p)) + Zeros(|d| - |p| - 1), [false] + m, [false] + rem);
  }

  lemma {:induction false} DivisionIdentity(d: Word, p: Word)
    requires |p| <= |d|
    ensures d == Xor(Mul(Quotient(d, p), Monic(p)), Zeros(|d| - |p|) + Reduce(d, p))
    decreases |d|
  {
    if |d| == |p| {
      assert Zeros(0) + d == d;
      XorZero(d, d);
    } else {
      var q := Quotient(DivStep(d, p), p);
      DivisionIdentity(DivStep(d, p), p);
      DivisionIdentityStep(d, p, Mul(q, Monic(p)), Zeros(|q|) + Reduce(d, p));
      MulCons(d[0], q, Monic(p));
      ZerosCons(|q|, Reduce(d, p));
    }
  }

  /** A multiple of x^w + p(x) whose high coefficients all vanish is zero. */
  lemma {:induction false} SmallMultipleIsZero(q: Word, p: Word)
    requires Mul(q, Monic(p))[..|q|] == Zeros(|q|)
    ensures q == Zeros(|q|)
    ensures Mul(q, Monic(p)) == Zeros(|q| + |p|)
  {
    if q != [] {
      var m := Mul(q[1..], Monic(p));
      assert !Mul(q, Monic(p))[..|q|][0];
      assert !q[0];
      assert Mul(q, Monic(p)) == [false] + m by {
        XorZero([false] + m, [false] + m);
        assert Zeros(|p| + 1) + Zeros(|q| - 1) == Zeros(|p| + |q|);
      }
      assert m[..|q| - 1] == Mul(q, Monic(p))[..|q|][1..] == Zeros(|q| - 1);
      SmallMultipleIsZero(q[1..], p);
      assert q == [false] + q[1..];
    }
  }

  lemma {:induction false} MulDistributes(a: Word, b: Word, g: Word)
    requires |a| == |b| && |g| > 0
    ensures Mul(Xor(a, b), g) == Xor(Mul(a, g), Mul(b, g))
  {
    if a != [] {
      MulDistributes(a[1..], b[1..], g);
      assert Xor(a, b)[1..] == Xor(a[1..], b[1..]);
      var z := Zeros(|a| - 1);
      var la, lb := Scaled(a[0], g) + z, Scaled(b[0], g) + z;
      var ma, mb := [false] + Mul(a[1..], g), [false] + Mul(b[1..], g);
      assert Scaled(Xor(a, b)[0], g) + z == Xor(la, lb);
      assert [false] + Mul(Xor(a, b)[1..], g) == Xor(ma, mb);
      XorShuffle(la, lb, ma, mb);
    }
  }

  lemma RemainderUnique(d: Word, p: Word, q: Word, r: Word, q0: Word, r0: Word)
    requires Divides(d, p, q, r) && Divides(d, p, q0, r0)
    ensures r == r0
  {
    var n := |q|;
    MulDistributes(q, q0, Monic(p));
    XorBoth(Mul(q, Monic(p)), Zeros(n) + r, Mul(q0, Monic(p)), Zeros(n) + r0);
    XorAppend(Zeros(n), Zeros(n), r, r0);
    XorZero(Zeros(n), Zeros(n));
    assert Mul(Xor(q, q0), Monic(p)) == Zeros(n) + Xor(r, r0);
    SmallMultipleIsZero(Xor(q, q0), p);
    assert Xor(r, r0) == (Zeros(n) + Xor(r, r0))[n..] == Zeros(|p|);
    XorZero(r, r0);
  }

  /** Long division computes the remainder, and nothing else is one. */
  lemma ReduceIsTheRemainder(d: Word, p: Word, r: Word)
    requires |p| <= |d|
    ensures IsRemainder(d, p, r) <==> r == Reduce(d, p)
  {
    var q0, r0 := Quotient(d, p), Reduce(d, p);
    DivisionIdentity(d, p);
    assert Divides(d, p, q0, r0);
    if IsRemainder(d, p, r) {
      var q: Word :| Divides(d, p, q, r);
      RemainderUnique(d, p, q, r, q0, r0);
    }
  }

  lemma MultipleIffZeroRemainder(d: Word, p: Word)
    requires |p| <= |d|
    ensures IsMultiple(d, p) <==> Reduce(d, p) == Zeros(|p|)
  {
    var z := Zeros(|p|);
    ReduceIsTheRemainder(d, p, z);
    if IsMultiple(d, p) {
      var q: Word :| IsProduct(d, q, Monic(p));
      XorZeros(Mul(q, Monic(p)), |q|);
      assert Divides(d, p, q, z);
    }
    if IsRemainder(d, p, z) {
      var q: Word :| Divides(d, p, q, z);
      XorZeros(Mul(q, Monic(p)), |q|);
      assert IsProduct(d, q, Monic(p));
    }
  }

  lemma {:induction false} ReduceLinear(a: Word, b: Word, p: Word)
    requires |p| <= |a| == |b|
    ensures Reduce(Xor(a, b), p) == Xor(Reduce(a, p), Reduce(b, p))
    decreases |a|
  {
    if |a| > |p| {
      assert DivStep(Xor(a, b), p) == Xor(DivStep(a, p), DivStep(b, p));
      ReduceLinear(DivStep(a, p), DivStep(b, p), p);
    }
  }
}
