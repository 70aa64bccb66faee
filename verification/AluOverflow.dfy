/** The overflow flag of the shift-add multiplication when the operands are signed. */
module AluOverflow {
  import opened Arithmetic
  import opened Bits
  import opened AluAdd

  // ---------------------------------------------------------------- the sum of the partial products

  /** One more bit of an operand, above all others, in one partial product. */
  lemma AddBitTerm(w: nat, a: nat, i: nat, j: nat)
    requires a < Pow2(i)
    ensures Trunc(w, (a + Pow2(i)) * Pow2(j)) == Trunc(w, a * Pow2(j)) + At(i + j < w, i + j)
  {
    hide Trunc, Pow2;
    var x, p := a * Pow2(j), Pow2(i + j);
    Pow2Add(i, j);
    Factor(Pow2(j), a, Pow2(i));
    if i + j < w {
      MulMono(Pow2(j), a + 1, Pow2(i));
      Factor(Pow2(j), a, 1);
      Pow2Mono(i + j, w);
      TruncSmall(w, x);
      TruncSmall(w, x + p);
    } else {
      Pow2Add(i + j - w, w);
      TruncAddMultiple(w, x, Pow2(i + j - w));
    }
  }

  lemma {:induction false} PartialSumAddBit(w: nat, a: nat, b: nat, i: nat, k: nat)
    requires a < Pow2(i)
    ensures PartialSum(w, a + Pow2(i), b, k) == PartialSum(w, a, b, k) + Trunc(w, Trunc(k, b) * Pow2(i))
  {
    hide Trunc, Bit, Pow2;
    if k == 0 {
      TruncBound(b);
      NothingTimes(w, i);
    } else {
      PartialSumAddBit(w, a, b, i, k - 1);
      AddBitTerm(w, a, i, k - 1);
      AddBitTerm(w, Trunc(k - 1, b), k - 1, i);
      LowBits(b, k - 1);
    }
  }

  lemma NothingTimes(w: nat, i: nat)
    ensures Trunc(w, 0 * Pow2(i)) == 0
  {
    assert 0 * Pow2(i) == 0;
    TruncSmall(w, 0);
  }

  lemma {:induction false} PartialSumZero(w: nat, b: nat, k: nat)
    ensures PartialSum(w, 0, b, k) == 0
  {
    if k > 0 {
      PartialSumZero(w, b, k - 1);
      NothingTimes(w, k - 1);
    }
  }

  lemma {:induction false} PartialSumSwap(w: nat, a: nat, b: nat, m: nat)
    requires b < Pow2(w)
    ensures PartialSum(w, Trunc(m, a), b, w) == PartialSum(w, b, a, m)
  {
    hide Trunc, Bit, Pow2;
    if m == 0 {
      TruncBound(a);
      PartialSumZero(w, b, w);
    } else {
      PartialSumSwap(w, a, b, m - 1);
      LowBits(a, m - 1);
      TruncSmall(w, b);
      PartialSumAddBit(w, Trunc(m - 1, a), b, m - 1, w);
    }
  }

  /** The overflow flag does not depend on the order of the operands. */
  lemma PartialSumSymmetric(w: nat, a: nat, b: nat)
    requires a < Pow2(w) && b < Pow2(w)
    ensures PartialSum(w, a, b, w) == PartialSum(w, b, a, w)
  {
    PartialSumSwap(w, a, b, w);
    TruncSmall(w, a);
  }

  lemma {:induction false} OneTerm(w: nat, a: nat, b: nat, i: nat, j: nat)
    requires j < i && Bit(b, j)
    ensures PartialSum(w, a, b, i) >= Trunc(w, a * Pow2(j))
  {
    hide Trunc, Bit, Pow2;
    if j < i - 1 {
      OneTerm(w, a, b, i - 1, j);
    }
  }

  lemma {:induction false} TwoTerms(w: nat, a: nat, b: nat, i: nat, j: nat, k: nat)
    requires j < k < i && Bit(b, j) && Bit(b, k)
    ensures PartialSum(w, a, b, i) >= Trunc(w, a * Pow2(j)) + Trunc(w, a * Pow2(k))
  {
    hide Trunc, Bit, Pow2;
    if k < i - 1 {
      TwoTerms(w, a, b, i - 1, j, k);
    } else {
      OneTerm(w, a, b, i - 1, j);
    }
  }

  // ---------------------------------------------------------------- negative operands

  /** A partial product of the word of -m, while it is not below -2^w. */
  lemma NegativeTerm(w: nat, m: nat, j: nat)
    requires 0 < m <= Pow2(w) && m * Pow2(j) <= Pow2(w)
    ensures Trunc(w, (Pow2(w) - m) * Pow2(j)) == Pow2(w) - m * Pow2(j)
  {
    hide Trunc, Pow2;
    var p: int, q: int, n: int := Pow2(w), Pow2(j), m;
    MulMono(m, 1, q);
    Distribute(p, -n, 0, q);
    Factor(p, q, -1);
    TruncAddMultiple(w, p - m * q, q - 1);
    TruncSmall(w, p - m * q);
  }

  /** Two partial products of the word of -m that together reach back to 2^w. */
  lemma TwoNegativeTerms(w: nat, m: nat, b: nat, j: nat, k: nat)
    requires 0 < m <= Pow2(w) && j < k < w && Bit(b, j) && Bit(b, k)
    requires m * Pow2(j) + m * Pow2(k) <= Pow2(w)
    ensures PartialSum(w, Pow2(w) - m, b, w) >= Pow2(w)
  {
    hide Trunc, Bit, Pow2, PartialSum;
    NegativeTerm(w, m, j);
    NegativeTerm(w, m, k);
    TwoTerms(w, Pow2(w) - m, b, w, j, k);
  }

  /** The two highest places that a number that is not a power of two needs. */
  lemma TopAndBelow(n: nat, t: nat, j: nat)
    requires Pow2(t) <= n < Pow2(t + 1) && j < t && Bit(n, j)
    ensures n >= Pow2(t) + Pow2(j)
  {
    hide Trunc, Bit, Pow2;
    LowBits(n, t);
    TopBit(n, t);
    AndMask(n, t);
    TruncSmall(t + 1, n);
    BitOfTrunc(t, n, j);
    if Trunc(t, n) < Pow2(j) {
      BitAboveClear(Trunc(t, n), j, j);
    }
  }

  /** A negative number times a positive one, where the product fits: the flag is raised if and only
      if the positive one is not a power of two. */
  lemma NegativeTimesPositive(w: nat, m: nat, b: nat)
    requires 0 < m <= Pow2(w) && 0 < b < Pow2(w) && m * b <= Pow2(w)
    ensures PartialSum(w, Pow2(w) - m, b, w) >= Pow2(w) <==> b != TopPower(b)
  {
    hide Trunc, Bit, Pow2, PartialSum, TopPower;
    var t := TopPowerIs(b);
    if w <= t {
      Pow2Mono(w, t);
    }
    if b == Pow2(t) {
      PowerNeverOverflows(w, Pow2(w) - m, t, w);
    } else {
      LowBits(b, t);
      TruncSmall(t + 1, b);
      var j := LowOne(t, b);
      TopAndBelow(b, t, j);
      Factor(m, Pow2(j), Pow2(t));
      MulMono(m, Pow2(j) + Pow2(t), b);
      TwoNegativeTerms(w, m, b, j, t);
    }
  }

  /** The ones in the word of -v: all places above the top of v, and the lowest one of v. */
  lemma NegativeBits(w: nat, v: nat, t: nat, j: nat)
    requires Pow2(t) <= v < Pow2(t + 1) && j < w && v <= Pow2(w)
    requires t < j || (Bit(v, j) && Trunc(j, v) == 0)
    ensures Bit(Pow2(w) - v, j)
  {
    hide Bit;
    ComplementBit(w, v - 1, j);
    if t < j {
      BitAboveClear(v - 1, t + 1, j);
    } else {
      OneBelow(v, j);
    }
  }

  /** Taking 1 away clears the lowest one. */
  lemma OneBelow(v: nat, j: nat)
    requires Bit(v, j) && Trunc(j, v) == 0
    ensures v > 0 && !Bit(v - 1, j)
  {
    hide Bit, Pow2;
    BitZero(j);
    BitIsShiftParity(v, j);
    BitIsShiftParity(v - 1, j);
    QuotientBelow(v, Pow2(j));
  }

  lemma QuotientBelow(v: nat, p: nat)
    requires p > 0 && v > 0 && v % p == 0
    ensures (v - 1) / p == v / p - 1
  {
    var q := v / p;
    assert v - 1 == (q - 1) * p + (p - 1);
    DivModUnique(v - 1, p, q - 1, p - 1);
  }

  lemma {:induction false} LowestOne(n: nat) returns (j: nat)
    requires n > 0
    ensures Bit(n, j) && Trunc(j, n) == 0
  {
    if n % 2 == 1 {
      j := 0;
    } else {
      var i := LowestOne(n / 2);
      j := i + 1;
      HalfTrunc(n, j);
    }
  }

  /** Two negative numbers, where the product fits and the second is not the word of minus a power of
      two: the flag is raised. */
  lemma NegativeTimesMixed(w: nat, m: nat, v: nat)
    requires 0 < m <= Pow2(w) && 0 < v <= Pow2(w) && 2 * (m * v) < Pow2(w) && v != TopPower(v)
    ensures PartialSum(w, Pow2(w) - m, Pow2(w) - v, w) >= Pow2(w)
  {
    hide Trunc, Bit, Pow2, PartialSum, TopPower;
    var t := TopPowerIs(v);
    var j := LowestOne(v);
    NotThePower(v, t, j);
    TopAndBelow(v, t, j);
    NextColumn(t);
    BelowWord(w, m, v, t);
    NegativeBits(w, v, t, j);
    NegativeBits(w, v, t, t + 1);
    Factor(m, Pow2(j), Pow2(t + 1));
    MulMono(m, Pow2(j) + Pow2(t + 1), 2 * v);
    TwoNegativeTerms(w, m, Pow2(w) - v, j, t + 1);
  }

  lemma NotThePower(v: nat, t: nat, j: nat)
    requires Pow2(t) < v < Pow2(t + 1) && Bit(v, j) && Trunc(j, v) == 0
    ensures j < t
  {
    if t < j {
      BitAboveClear(v, t + 1, j);
    } else if j == t {
      LowBits(v, t);
      TruncSmall(t + 1, v);
    }
  }

  lemma BelowWord(w: nat, m: nat, v: nat, t: nat)
    requires m > 0 && Pow2(t) <= v && 2 * (m * v) < Pow2(w)
    ensures t + 1 < w
  {
    MulMono(v, 1, m);
    if w <= t + 1 {
      Pow2Mono(w, t + 1);
    }
  }

  /** Two powers of two. */
  lemma NegativePowers(w: nat, s: nat, t: nat)
    requires s + t + 1 < w
    ensures Pow2(s) <= Pow2(w) && Pow2(t) <= Pow2(w)
    ensures PartialSum(w, Pow2(w) - Pow2(s), Pow2(w) - Pow2(t), w) >= Pow2(w)
  {
    hide Trunc, Bit, Pow2, PartialSum;
    Pow2Mono(s, w);
    Pow2Mono(t, w);
    NextColumn(t);
    ThreeFourths(w, s, t);
    BitPow2(t, t);
    PowerRemainder(t);
    NegativeBits(w, Pow2(t), t, t);
    NegativeBits(w, Pow2(t), t, t + 1);
    TwoNegativeTerms(w, Pow2(s), Pow2(w) - Pow2(t), t, t + 1);
  }

  lemma ThreeFourths(w: nat, s: nat, t: nat)
    requires s + t + 1 < w
    ensures Pow2(s) * Pow2(t) + Pow2(s) * Pow2(t + 1) <= Pow2(w)
  {
    hide Pow2;
    Pow2Mono(s + t + 2, w);
    NextColumn(s + t);
    NextColumn(s + t + 1);
    Pow2Add(s, t);
    Pow2Add(s, t + 1);
  }

  lemma PowerRemainder(t: nat)
    ensures Trunc(t, Pow2(t)) == 0
  {
    DivModUnique(Pow2(t), Pow2(t), 1, 0);
  }

  lemma BothNegative(w: nat, m: nat, v: nat)
    requires 0 < m <= Pow2(w) && 0 < v <= Pow2(w) && 2 * (m * v) < Pow2(w)
    ensures PartialSum(w, Pow2(w) - m, Pow2(w) - v, w) >= Pow2(w)
  {
    hide Trunc, Bit, Pow2, PartialSum, TopPower;
    if v != TopPower(v) {
      NegativeTimesMixed(w, m, v);
    } else if m != TopPower(m) {
      assert m * v == v * m;
      NegativeTimesMixed(w, v, m);
      PartialSumSymmetric(w, Pow2(w) - m, Pow2(w) - v);
    } else {
      var s := TopPowerIs(m);
      var t := TopPowerIs(v);
      Pow2Add(s, t);
      NextColumn(s + t);
      if w <= s + t + 1 {
        Pow2Mono(w, s + t + 1);
      }
      NegativePowers(w, s, t);
    }
  }

  // ---------------------------------------------------------------- the flag

  /** `x` is a signed number of `w` bits. */
  predicate FitsSigned(w: nat, x: int)
    requires w > 0
  {
    var h: int := Pow2(w - 1);
    -h <= x < h
  }

  /** Operands whose product fits, but raises the flag: both are negative, or one is and the other is
      positive and not a power of two. */
  predicate FalseAlarm(w: nat, a: nat, b: nat)
    requires w > 0
  {
    var x, y := Signed(w, a), Signed(w, b);
    || (x < 0 && y < 0)
    || (x < 0 < y && b != TopPower(b))
    || (y < 0 < x && a != TopPower(a))
  }

  /** The overflow flag as one of a signed product: where the product fits, it is raised exactly for the
      operands above.  Where it does not fit, it stays clear for non-negative operands if the product
      fits without a sign. */
  lemma SignedOverflow(w: nat, a: nat, b: nat)
    requires w > 0 && a < Pow2(w) && b < Pow2(w)
    ensures var x, y := Signed(w, a), Signed(w, b);
            && (FitsSigned(w, x * y) ==> (PartialSum(w, a, b, w) >= Pow2(w) <==> FalseAlarm(w, a, b)))
            && (x >= 0 && y >= 0 && x * y < Pow2(w) ==> PartialSum(w, a, b, w) < Pow2(w))
  {
    hide PartialSum, TopPower, Pow2, FitsSigned, FalseAlarm, Signed;
    var x, y := Signed(w, a), Signed(w, b);
    SignedParts(w, a);
    SignedParts(w, b);
    if FitsSigned(w, x * y) && x < 0 {
      NegativeFirst(w, a, b);
    } else if FitsSigned(w, x * y) && y < 0 {
      assert x * y == y * x;
      NegativeFirst(w, b, a);
      PartialSumSymmetric(w, a, b);
      SameAlarm(w, a, b);
    } else if x >= 0 && y >= 0 {
      NoAlarm(w, a, b);
      if x * y < Pow2(w) {
        NonNegative(w, a, b);
      }
    }
  }

  lemma SameAlarm(w: nat, a: nat, b: nat)
    requires w > 0
    ensures FalseAlarm(w, a, b) <==> FalseAlarm(w, b, a)
  {
  }

  lemma NoAlarm(w: nat, a: nat, b: nat)
    requires w > 0 && Signed(w, a) >= 0 && Signed(w, b) >= 0
    ensures !FalseAlarm(w, a, b)
    ensures FitsSigned(w, Signed(w, a) * Signed(w, b)) ==> Signed(w, a) * Signed(w, b) < Pow2(w)
  {
    NextColumn(w - 1);
  }

  lemma NegativeFirst(w: nat, a: nat, b: nat)
    requires w > 0 && a < Pow2(w) && b < Pow2(w)
    requires Signed(w, a) < 0 && FitsSigned(w, Signed(w, a) * Signed(w, b))
    ensures PartialSum(w, a, b, w) >= Pow2(w) <==> FalseAlarm(w, a, b)
  {
    hide PartialSum, TopPower, Pow2, Signed;
    NextColumn(w - 1);
    var x, y := Signed(w, a), Signed(w, b);
    SignedParts(w, a);
    SignedParts(w, b);
    var m: nat := -x;
    SignsOut(m, y);
    if y == 0 {
      NonNegative(w, a, b);
    } else if y < 0 {
      BothNegative(w, m, -y);
    } else {
      NegativeTimesPositive(w, m, b);
    }
  }

  lemma SignsOut(m: int, y: int)
    ensures (-m) * y == m * (-y) && m * (-y) == -(m * y)
    ensures y == 0 ==> m * y == 0
  {
  }

  lemma SignedParts(w: nat, a: nat)
    requires w > 0 && a < Pow2(w)
    ensures var x := Signed(w, a);
            if x < 0 then 0 < -x <= Pow2(w) && a == Pow2(w) + x else a == x
  {
  }

  lemma NonNegative(w: nat, a: nat, b: nat)
    requires b < Pow2(w) && a * b < Pow2(w)
    ensures PartialSum(w, a, b, w) < Pow2(w)
  {
    hide PartialSum;
    if PartialSum(w, a, b, w) >= Pow2(w) {
      OverflowIsReal(w, a, b);
    }
  }

  /** The product of -1 and -1 is 1, and raises the flag. */
  lemma MinusOneSquared(w: nat)
    requires w > 1
    ensures var a := Pow2(w) - 1; Signed(w, a) == -1 && PartialSum(w, a, a, w) >= Pow2(w)
  {
    hide PartialSum;
    assert Pow2(w) == 2 * Pow2(w - 1);
    Pow2Mono(2, w);
    BothNegative(w, 1, 1);
  }
}
