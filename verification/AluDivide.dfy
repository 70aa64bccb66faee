/** Bitwise comparison and pen-and-paper division of `src/ALU.hpp`. */
module AluDivide {
  import opened Arithmetic
  import opened Bits
  import opened DataTypes
  import opened AluAdd

  /** Comparing column `i`, given that all higher columns agree. */
  lemma CompareColumn(a: nat, b: nat, i: nat)
    requires a / Pow2(i + 1) == b / Pow2(i + 1)
    ensures Xor(And(a, Pow2(i)), And(b, Pow2(i))) == 0 <==> Bit(a, i) == Bit(b, i)
    ensures And(a, Pow2(i)) != 0 <==> Bit(a, i)
    ensures Bit(a, i) == Bit(b, i) ==> a / Pow2(i) == b / Pow2(i)
    ensures Bit(a, i) && !Bit(b, i) ==> a > b
    ensures !Bit(a, i) && Bit(b, i) ==> a < b
  {
    AndMask(a, i);
    AndMask(b, i);
    Column(Bit(a, i), Bit(b, i), i);
    BitIsShiftParity(a, i);
    BitIsShiftParity(b, i);
    if a / Pow2(i) > b / Pow2(i) {
      QuotientOrder(b, a, Pow2(i));
    } else if a / Pow2(i) < b / Pow2(i) {
      QuotientOrder(a, b, Pow2(i));
    }
  }

  lemma QuotientOrder(x: nat, y: nat, m: nat)
    requires m > 0 && x / m < y / m
    ensures x < y
  {
    MulMono(m, x / m + 1, y / m);
  }

  method CompareGreaterOrEqualWithEq(w: nat, a: nat, b: nat) returns (ge: bool, equal: bool)
    requires 0 < w && a < Pow2(w) && b < Pow2(w)
    ensures ge <==> a >= b
    ensures equal <==> a == b
  {
    hide And, Xor, Bit;
    var mask := Pow2(w - 1);
    DivModUnique(a, Pow2(w), 0, a);
    DivModUnique(b, Pow2(w), 0, b);
    for i := w downto 0
      invariant i > 0 ==> mask == Pow2(i - 1)
      invariant a / Pow2(i) == b / Pow2(i)
    {
      CompareColumn(a, b, i);
      if Xor(And(a, mask), And(b, mask)) == 0 {
        mask := mask / 2;
      } else if And(a, mask) != 0 {
        return true, false;
      } else {
        return false, false;
      }
    }
    return true, true;
  }

  method CompareGreaterOrEqual(w: nat, a: nat, b: nat) returns (ge: bool)
    requires 0 < w && a < Pow2(w) && b < Pow2(w)
    ensures ge <==> a >= b
  {
    var equal;
    ge, equal := CompareGreaterOrEqualWithEq(w, a, b);
  }

  method CompareGreater(w: nat, a: nat, b: nat) returns (gt: bool)
    requires 0 < w && a < Pow2(w) && b < Pow2(w)
    ensures gt <==> a > b
  {
    hide And, Xor, Bit;
    var mask := Pow2(w - 1);
    DivModUnique(a, Pow2(w), 0, a);
    DivModUnique(b, Pow2(w), 0, b);
    for i := w downto 0
      invariant i > 0 ==> mask == Pow2(i - 1)
      invariant a / Pow2(i) == b / Pow2(i)
    {
      CompareColumn(a, b, i);
      if Xor(And(a, mask), And(b, mask)) == 0 {
        mask := mask / 2;
      } else if And(a, mask) != 0 {
        return true;
      } else {
        return false;
      }
    }
    return false;
  }

  method CompareEqual(w: nat, a: nat, b: nat) returns (eq: bool)
    requires 0 < w && a < Pow2(w) && b < Pow2(w)
    ensures eq <==> a == b
  {
    hide And, Xor, Bit, Trunc;
    var mask := 1;
    for i := 0 to w
      invariant mask == At(i < w, i)
      invariant Trunc(i, a) == Trunc(i, b)
    {
      AndMask(a, i);
      AndMask(b, i);
      Column(Bit(a, i), Bit(b, i), i);
      if Xor(And(a, mask), And(b, mask)) != 0 {
        return false;
      }
      LowBits(a, i);
      LowBits(b, i);
      MaskShift(w, i);
      mask := Trunc(w, mask * 2);
    }
    TruncSmall(w, a);
    TruncSmall(w, b);
    return true;
  }

  // ---------------------------------------------------------------- division

  /** The first loop: the number of leading zeros of the divisor, or 0xFF if it is zero. */
  method LeadingZeros(w: nat, d: nat) returns (minD: nat)
    requires 0 < w < 0xFF && d < Pow2(w)
    ensures d == 0 <==> minD == 0xFF
    ensures d > 0 ==> minD < w && Pow2(w - 1 - minD) <= d < Pow2(w - minD)
  {
    minD := 0xFF;
    var mask := Pow2(w - 1);
    for i := 0 to w
      invariant i < w ==> mask == Pow2(w - 1 - i)
      invariant d < Pow2(w - i)
    {
      TopBit(d, w - 1 - i);
      if And(d, mask) != 0 {
        return i;
      }
      mask := mask / 2;
    }
  }

  /** The second loop: the position of the top bit of the dividend, or 0. */
  method TopBitPosition(w: nat, n: nat) returns (minN: nat)
    requires 0 < w && n < Pow2(w)
    ensures minN < w && n < Pow2(minN + 1)
    ensures if n == 0 then minN == 0 else Pow2(minN) <= n
  {
    minN := 0;
    var mask := Pow2(w - 1);
    for i := w downto 0
      invariant i > 0 ==> mask == Pow2(i - 1)
      invariant n < Pow2(i)
    {
      TopBit(n, i);
      if And(n, mask) != 0 {
        return i;
      }
      mask := mask / 2;
    }
  }

  /** Shifting the divisor up by at most its leading zeros keeps all its bits. */
  lemma NoBitLost(w: nat, d: nat, minD: nat, shift: nat)
    requires minD < w && d < Pow2(w - minD) && shift <= minD
    ensures Shl(d, shift) < Pow2(w)
  {
    ShlMono(d, shift, Pow2(w - minD) - 1, minD);
    ShlIsProduct(Pow2(w - minD) - 1, minD);
    Pow2Add(w - minD, minD);
    Factor(Pow2(minD), Pow2(w - minD), -1);
  }

  /** The state of the division before step `i - 1`: `q` is the quotient so far, to be
      read at position `i`, and `r` is what is left of the dividend. */
  ghost predicate Dividing(n: nat, d: nat, q: nat, r: nat, i: nat) {
    r < Shl(d, i) && n == q * Shl(d, i) + r
  }

  /** Starting at the leading zeros of `d`, or at the top bit of `n`, skips only zeros. */
  lemma EnoughRoom(w: nat, n: nat, d: nat, minD: nat, minN: nat, shift: nat)
    requires n < Pow2(w) && n < Pow2(minN + 1) && d > 0
    requires minD < w && Pow2(w - 1 - minD) <= d
    requires shift == if minN >= minD then minD else minN
    ensures Dividing(n, d, 0, n, shift + 1)
  {
    if minN >= minD {
      Pow2Add(w - 1 - minD, minD);
      ShlIsProduct(Pow2(w - 1 - minD), minD);
      ShlMono(Pow2(w - 1 - minD), minD, d, minD);
    } else {
      ShlIsProduct(1, minN);
      ShlMono(1, minN, d, minN);
    }
  }

  /** One step of the division; `r == 0` is the case after the early stop. */
  lemma DivideStep(w: nat, n: nat, d: nat, q: nat, r: nat, i: nat)
    requires n < Pow2(w) && d > 0 && Dividing(n, d, q, r, i + 1)
    ensures Trunc(w, q * 2) == q * 2 && Or(q * 2, 1) == q * 2 + 1
    ensures r >= Shl(d, i) ==> Dividing(n, d, q * 2 + 1, r - Shl(d, i), i)
    ensures r < Shl(d, i) ==> Dividing(n, d, q * 2, r, i)
    ensures Shl(d, i) > 0 && r < Pow2(w)
  {
    hide Or, Trunc, Pow2, Shl;
    ShlNext(d, i);
    DivideArithmetic(n, q, r, Shl(d, i));
    TruncSmall(w, q * 2);
    OrEven(q * 2, true);
  }

  lemma ShlNext(d: nat, i: nat)
    ensures Shl(d, i + 1) == 2 * Shl(d, i)
    ensures d > 0 ==> Shl(d, i) > 0
  {
    if d > 0 {
      ShlMono(1, 0, d, i);
    }
  }

  lemma ShlHalf(d: nat, i: nat)
    ensures i > 0 ==> Shl(d, i) / 2 == Shl(d, i - 1)
  {
  }

  lemma DivideArithmetic(n: nat, q: nat, r: nat, s: nat)
    requires s > 0 && n == q * (2 * s) + r
    ensures n == (q * 2) * s + r && n == (q * 2 + 1) * s + (r - s)
    ensures q * 2 <= n && r <= n
  {
    assert q * (2 * s) == (q * 2) * s;
    Factor(s, q * 2, 1);
    MulMono(q * 2, 1, s);
  }

  lemma AddNegated(w: nat, a: nat, b: nat)
    requires a < Pow2(w) && b <= a
    ensures Negated(w, b) < Pow2(w) && (a + Negated(w, b)) % Pow2(w) == a - b
  {
    NegatedValue(w, b);
    TruncSmall(w, a - b);
    TruncAddMultiple(w, a - b, 1);
  }

  lemma DivideEnd(n: nat, d: nat, q: nat, r: nat)
    requires d > 0 && Dividing(n, d, q, r, 0)
    ensures q == n / d && r == n % d
  {
    DivModUnique(n, d, q, r);
  }

  /** Restoring division with a computed first shift and an early stop. */
  method UnsignedDivide(w: nat, n: nat, d: nat) returns (q: nat, r: nat, divByZero: bool)
    requires 0 < w < 0xFF && n < Pow2(w) && d < Pow2(w)
    ensures divByZero <==> d == 0
    ensures d == 0 ==> q == 0 && r == 0
    ensures d > 0 ==> q == n / d && r == n % d
  {
    hide Pow2, Shl, Trunc, Or, Dividing, Negated;
    q := 0;
    var minD := LeadingZeros(w, d);
    if minD == 0xFF {
      return 0, 0, true;
    }
    divByZero := false;
    var minN := TopBitPosition(w, n);
    var minShift := if minN >= minD then minD else minN;
    NoBitLost(w, d, minD, minShift);
    EnoughRoom(w, n, d, minD, minN, minShift);

    r := n;
    var shifted, canCompute := d, false;
    for i := w downto 0
      invariant i > minShift ==> !canCompute && q == 0 && r == n && shifted == d
      invariant i <= minShift ==> Dividing(n, d, q, r, i)
      invariant i <= minShift ==> (if canCompute then i > 0 ==> shifted == Shl(d, i - 1) else r == 0)
    {
      if minShift == i {
        canCompute := true;
        TruncSmall(w, Shl(d, i));
        shifted := Trunc(w, Shl(shifted, i));
      }
      if i <= minShift {
        DivideStep(w, n, d, q, r, i);
        ShlHalf(d, i);
        ShlMono(d, i, d, minShift);
      } else {
        TruncSmall(w, 0);
      }
      q := Trunc(w, q * 2);
      if canCompute {
        var ge, equal := CompareGreaterOrEqualWithEq(w, r, shifted);
        if ge {
          AddNegated(w, r, shifted);
          var minus := Negate(w, shifted);
          r := AddNoCarry(w, r, minus);
          q := Or(q, 1);
          if equal {
            canCompute := false;
          }
        }
        shifted := shifted / 2;
      }
    }
    DivideEnd(n, d, q, r);
  }

  function Magnitude(x: int): nat {
    if x < 0 then -x else x
  }

  /** Division truncated towards zero, as C++ and the x86 `IDIV` define it. */
  function Quotient(n: int, d: int): int
    requires d != 0
  {
    if (n < 0) != (d < 0) then -(Magnitude(n) / Magnitude(d)) else Magnitude(n) / Magnitude(d)
  }

  /** The remainder takes the sign of the dividend. */
  function Remainder(n: int, d: int): int
    requires d != 0
  {
    if n < 0 then -(Magnitude(n) % Magnitude(d)) else Magnitude(n) % Magnitude(d)
  }

  lemma SignsOfProducts(m: int, q: int)
    ensures m * q == q * m && (-m) * q == -(q * m) && m * (-q) == -(q * m) && (-m) * (-q) == q * m
  {
  }

  /** The two together satisfy the division equation with a remainder smaller than `d`. */
  lemma TruncatedDivision(n: int, d: int)
    requires d != 0
    ensures n == d * Quotient(n, d) + Remainder(n, d)
    ensures Magnitude(Remainder(n, d)) < Magnitude(d)
    ensures Remainder(n, d) != 0 ==> (Remainder(n, d) < 0 <==> n < 0)
  {
    var m := Magnitude(d);
    var q, r := Magnitude(n) / m, Magnitude(n) % m;
    assert Magnitude(n) == q * m + r;
    SignsOfProducts(m, q);
  }

  /** When the remainder computed by the source is the truncated one: the correction
      `d - r` is made whenever the signs differ, and none when both are negative. */
  predicate RemainderIsRight(w: nat, n: int, d: int)
    requires d != 0
  {
    var r := Magnitude(n) % Magnitude(d);
    r == 0 || (n >= 0 && (d > 0 || 2 * r == Pow2(w) + d))
  }

  method SignedDivide(w: nat, n: nat, d: nat) returns (q: nat, r: nat, divByZero: bool)
    requires 0 < w < 0xFF && n < Pow2(w) && d < Pow2(w)
    ensures divByZero <==> d == 0
    ensures d != 0 ==> q == Trunc(w, Quotient(Signed(w, n), Signed(w, d)))
    ensures d != 0 ==>
      (r == Trunc(w, Remainder(Signed(w, n), Signed(w, d))) <==> RemainderIsRight(w, Signed(w, n), Signed(w, d)))
    ensures d != 0 ==>
      var x, y := Signed(w, n), Signed(w, d);
      r == if x < 0 < y then x % y
           else if x < 0 then -Remainder(x, y)
           else if y < 0 && Remainder(x, y) != 0 then Trunc(w, y - Remainder(x, y))
           else Remainder(x, y)
  {
    var nAbs := Abs(w, n);
    var dAbs := Abs(w, d);
    q, r, divByZero := UnsignedDivide(w, nAbs, dAbs);
    if divByZero {
      return;
    }
    ghost var q0, r0 := q, r;
    QuotientFits(nAbs, dAbs);
    var nNeg := CheckIsNegative(w, n, UNKNOWN);
    var dNeg := CheckIsNegative(w, d, UNKNOWN);
    if nNeg != dNeg {
      q := Negate(w, q);
      if r != 0 {
        SubTrunc(w, d, r);
        r := Negate(w, r);
        r := AddNoCarry(w, d, r);
      }
    }
    TruncSmall(w, q0);
    SignedRemainderCases(w, n, d, r0);
    SignedRemainderValue(w, n, d, r0);
  }

  lemma QuotientFits(n: nat, d: nat)
    requires d > 0
    ensures n / d <= n && n % d < d
  {
    MulMono(n / d, 1, d);
  }

  lemma SubTrunc(w: nat, d: nat, r: nat)
    requires 0 < r < Pow2(w) && d < Pow2(w)
    ensures Trunc(w, d + Negated(w, r)) == Trunc(w, d - r)
  {
    NegatedValue(w, r);
    TruncAddMultiple(w, d - r, 1);
  }

  lemma SignedRemainderCases(w: nat, n: nat, d: nat, r0: nat)
    requires 0 < w && n < Pow2(w) && 0 < d < Pow2(w)
    requires r0 == Magnitude(Signed(w, n)) % Magnitude(Signed(w, d))
    ensures var r := if (Signed(w, n) < 0) != (Signed(w, d) < 0) && r0 != 0 then Trunc(w, d - r0) else r0;
            r == Trunc(w, Remainder(Signed(w, n), Signed(w, d))) <==> RemainderIsRight(w, Signed(w, n), Signed(w, d))
  {
    var sn, sd := Signed(w, n), Signed(w, d);
    assert r0 < Magnitude(sd) <= Pow2(w - 1);
    NegatedValue(w, r0);
    TruncSmall(w, r0);
    TruncSmall(w, d - r0);
  }

  /** The corrected remainder in arithmetic: for a negative dividend and a positive divisor it is the
      Euclidean one. */
  lemma SignedRemainderValue(w: nat, n: nat, d: nat, r0: nat)
    requires 0 < w && n < Pow2(w) && 0 < d < Pow2(w)
    requires r0 == Magnitude(Signed(w, n)) % Magnitude(Signed(w, d))
    ensures var x, y := Signed(w, n), Signed(w, d);
            (if (x < 0) != (y < 0) && r0 != 0 then Trunc(w, d - r0) else r0) ==
              if x < 0 < y then x % y
              else if x < 0 then -Remainder(x, y)
              else if y < 0 && Remainder(x, y) != 0 then Trunc(w, y - Remainder(x, y))
              else Remainder(x, y)
  {
    hide Pow2, Trunc;
    var x, y := Signed(w, n), Signed(w, d);
    if x < 0 < y {
      EuclideanOfNegative(-x, y);
      if r0 != 0 {
        TruncSmall(w, d - r0);
      }
    } else if y < 0 <= x {
      TruncAddMultiple(w, y - r0, 1);
    }
  }

  lemma EuclideanOfNegative(m: int, y: int)
    requires m > 0 && y > 0
    ensures (-m) % y == if m % y == 0 then 0 else y - m % y
  {
    var q, r := m / y, m % y;
    assert m == q * y + r;
    if r == 0 {
      DivModUnique(-m, y, -q, 0);
    } else {
      Factor(y, -q, -1);
      DivModUnique(-m, y, -q - 1, y - r);
    }
  }

  /** -7 divided by 2: the source leaves remainder 1 where `IDIV` leaves -1. */
  lemma RemainderWrongForNegativeDividend()
    ensures Signed(32, 0xFFFF_FFF9) == -7 && Signed(32, 2) == 2
    ensures !RemainderIsRight(32, -7, 2)
  {
    assert Pow2(8) == 0x100;
    Pow2Add(8, 8);
    Pow2Add(16, 16);
    assert Pow2(31) * 2 == Pow2(32);
  }
}
