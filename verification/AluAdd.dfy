/** The ripple-carry adder, negation, subtraction and shift-add multiplication of
    `src/ALU.hpp`, as the loops they are, for words of `w` bits. */
module AluAdd {
  import opened Arithmetic
  import opened Bits
  import opened DataTypes

  /** Column `i` of the adder, with a carry `c` coming in at that column. */
  lemma FullAdder(a: nat, b: nat, c: bool, i: nat)
    ensures var x, y := Bit(a, i), Bit(b, i);
            var p := Pow2(i);
            var tmp := Xor(And(a, p), And(b, p));
            && Xor(tmp, At(c, i)) == At((x != y) != c, i)
            && Or(And(And(a, b), p), And(tmp, At(c, i))) == At((x && y) || ((x != y) && c), i)
  {
    var x, y := Bit(a, i), Bit(b, i);
    AndMask(a, i);
    AndMask(b, i);
    BitAnd(a, b, i);
    AndMask(And(a, b), i);
    Column(x, y, i);
    Column(x != y, c, i);
    Column(x && y, (x != y) && c, i);
  }

  /** The mask register walks from bit 0 upwards and ends up empty. */
  lemma MaskShift(w: nat, i: nat)
    requires i < w
    ensures Trunc(w, Pow2(i) * 2) == At(i + 1 < w, i + 1)
  {
    if i + 1 < w {
      Pow2Mono(i + 1, w);
      TruncSmall(w, Pow2(i) * 2);
    } else {
      DivModUnique(Pow2(w), Pow2(w), 1, 0);
    }
  }

  lemma FirstColumn(a: nat, b: nat)
    ensures Pow2(0) == 1 && Trunc(0, a) == 0 && Trunc(0, b) == 0
  {
  }

  lemma NextColumn(i: nat)
    ensures Pow2(i + 1) == 2 * Pow2(i)
  {
  }

  method Add(w: nat, a: nat, b: nat, carryIn: bool) returns (r: nat, carryOut: bool)
    requires 0 < w && a < Pow2(w) && b < Pow2(w)
    ensures r < Pow2(w)
    ensures r + At(carryOut, w) == a + b + Num(carryIn)
  {
    hide And, Or, Xor, Bit, Trunc, Pow2;
    r := 0;
    var mask, carry := 1, Num(carryIn);
    ghost var c := carryIn;
    FirstColumn(a, b);
    for i := 0 to w
      invariant mask == At(i < w, i)
      invariant carry == if i == 0 then Num(c) else At(c, i - 1)
      invariant r < Pow2(i)
      invariant r + At(c, i) == Trunc(i, a) + Trunc(i, b) + Num(carryIn)
    {
      if i != 0 {
        MaskShift(w, i - 1);
        TruncSmall(w, 0);
        carry := Trunc(w, carry * 2);
      }
      assert carry == At(c, i);
      var tmp := Xor(And(a, mask), And(b, mask));
      ghost var x, y := Bit(a, i), Bit(b, i);
      FullAdder(a, b, c, i);
      OrAbove(r, (x != y) != c, i);
      LowBits(a, i);
      LowBits(b, i);
      NextColumn(i);
      r := Or(r, Xor(tmp, carry));
      carry := Or(And(And(a, b), mask), And(tmp, carry));
      c := (x && y) || ((x != y) && c);
      MaskShift(w, i);
      mask := Trunc(w, mask * 2);
    }
    TruncSmall(w, a);
    TruncSmall(w, b);
    carryOut := carry != 0;
  }

  method AddNoCarry(w: nat, a: nat, b: nat) returns (r: nat)
    requires 0 < w && a < Pow2(w) && b < Pow2(w)
    ensures r == (a + b) % Pow2(w)
  {
    var carry;
    r, carry := Add(w, a, b, false);
    DivModUnique(a + b, Pow2(w), Num(carry), r);
  }

  /** Two's complement of a word. */
  function Negated(w: nat, n: nat): nat
  {
    Trunc(w, 0 - n)
  }

  lemma NegatedValue(w: nat, n: nat)
    requires n < Pow2(w)
    ensures Negated(w, n) == if n == 0 then 0 else Pow2(w) - n
  {
    if n > 0 {
      DivModUnique(0 - n, Pow2(w), -1, Pow2(w) - n);
    } else {
      TruncSmall(w, 0);
    }
  }

  method Negate(w: nat, n: nat) returns (out: nat)
    requires 0 < w && n < Pow2(w)
    ensures out == Negated(w, n)
  {
    out := 0;
    var mask, negate := 1, false;
    for i := 0 to w
      invariant mask == At(i < w, i)
      invariant negate <==> Trunc(i, n) > 0
      invariant out == if negate then Pow2(i) - Trunc(i, n) else 0
    {
      AndMask(n, i);
      LowBits(n, i);
      ghost var x := Bit(n, i);
      Column(x, true, i);
      if negate {
        OrAbove(out, !x, i);
        out := Or(out, Xor(And(n, mask), mask));
      } else if And(n, mask) != 0 {
        negate := true;
        OrAbove(out, true, i);
        out := Or(out, mask);
      }
      MaskShift(w, i);
      mask := Trunc(w, mask * 2);
    }
    TruncSmall(w, n);
    NegatedValue(w, n);
  }

  lemma NegateInvolution(w: nat, n: nat)
    requires n < Pow2(w)
    ensures Negated(w, Negated(w, n)) == n
    ensures Trunc(w, n + Negated(w, n)) == 0
  {
    NegatedValue(w, n);
    TruncSmall(w, 0);
    if n > 0 {
      NegatedValue(w, Pow2(w) - n);
      DivModUnique(Pow2(w), Pow2(w), 1, 0);
    }
  }

  lemma TruncDiffers(w: nat, x: int, d: nat)
    requires 0 < d < Pow2(w)
    ensures Trunc(w, x + d) != Trunc(w, x)
  {
    var p := Pow2(w);
    var k := (x + d) / p - x / p;
    if Trunc(w, x + d) == Trunc(w, x) {
      assert k * p == d by {
        Distribute((x + d) / p, -(x / p), 0, p);
      }
      if k != 0 {
        NonzeroMultiple(k, p);
      }
    }
  }

  /** The second operand, of `wb` bits, is negated at its own width and extended with zeros: this
      subtracts if and only if it is as wide as the first, or 0. */
  lemma NarrowNegation(w: nat, wb: nat, a: nat, b: nat, c: nat)
    requires wb <= w && b < Pow2(wb)
    ensures Trunc(w, a + Negated(wb, b) + c) == Trunc(w, a - b + c) <==> wb == w || b == 0
  {
    hide Trunc, Pow2;
    NegatedValue(wb, b);
    if b > 0 {
      if wb == w {
        TruncAddMultiple(w, a - b + c, 1);
      } else {
        Pow2Mono(wb, w);
        TruncDiffers(w, a - b + c, Pow2(wb));
      }
    }
  }

  /** A byte of 1 subtracted from a word of 32 bits. */
  lemma NarrowOneDoesNotSubtract(a: nat)
    ensures Trunc(32, a + Negated(8, 1)) != Trunc(32, a - 1)
  {
    assert Pow2(8) == 256;
    NarrowNegation(32, 8, a, 1, 0);
  }

  /** `carry` is the carry of `a + (2^wb - b)`: for operands of one width and without a carry in, the
      complement of the borrow, except for b = 0. */
  method Sub(w: nat, a: nat, wb: nat, b: nat, carryIn: bool) returns (r: nat, carry: bool)
    requires 0 < wb <= w && a < Pow2(w) && b < Pow2(wb)
    ensures r < Pow2(w) && r + At(carry, w) == a + Negated(wb, b) + Num(carryIn)
    ensures r == Trunc(w, a - b + Num(carryIn)) <==> wb == w || b == 0
    ensures wb == w && !carryIn ==> (carry <==> b > 0 && a >= b)
  {
    var nb := Negate(wb, b);
    Pow2Mono(wb, w);
    r, carry := Add(w, a, nb, carryIn);
    NegatedValue(wb, b);
    NarrowNegation(w, wb, a, b, Num(carryIn));
    TruncAddMultiple(w, r, Num(carry));
    TruncSmall(w, r);
  }

  method SubNoCarry(w: nat, a: nat, wb: nat, b: nat) returns (r: nat)
    requires 0 < wb <= w && a < Pow2(w) && b < Pow2(wb)
    ensures r == Trunc(w, a + Negated(wb, b))
    ensures r == Trunc(w, a - b) <==> wb == w || b == 0
  {
    var carry;
    r, carry := Sub(w, a, wb, b, false);
    TruncAddMultiple(w, r, Num(carry));
    TruncSmall(w, r);
  }

  /** The signed reading of a word. */
  function Signed(w: nat, n: nat): int
    requires 0 < w
  {
    if n < Pow2(w - 1) then n else n - Pow2(w)
  }

  lemma SignBit(w: nat, n: nat)
    requires 0 < w && n < Pow2(w)
    ensures Bit(n, w - 1) <==> Signed(w, n) < 0
  {
    TopBit(n, w - 1);
    AndMask(n, w - 1);
  }

  /** For an operand of the size, the bit tested is its sign. */
  method CheckIsNegative(w: nat, n: nat, size: OpSize) returns (neg: bool)
    requires 0 < w && n < Pow2(w) && LastBitPos(w, size) < w
    ensures neg <==> Bit(n, LastBitPos(w, size))
    ensures var s := LastBitPos(w, size) + 1; n < Pow2(s) ==> (neg <==> Signed(s, n) < 0)
  {
    hide And, Bit, Pow2, Signed;
    var lastBitPos := LastBitPos(w, size);
    var mask := Pow2(lastBitPos);
    AndMask(n, lastBitPos);
    if n < Pow2(lastBitPos + 1) {
      SignBit(lastBitPos + 1, n);
    }
    neg := And(n, mask) != 0;
  }

  method Abs(w: nat, n: nat) returns (r: nat)
    requires 0 < w && n < Pow2(w)
    ensures r == if Signed(w, n) < 0 then -Signed(w, n) else Signed(w, n)
  {
    var neg := CheckIsNegative(w, n, UNKNOWN);
    if neg {
      r := Negate(w, n);
      NegatedValue(w, n);
    } else {
      r := n;
    }
  }

  // ---------------------------------------------------------------- multiplication

  /** The sum of the partial products of `a` with the low `i` bits of `b`, each cut
      to `w` bits as the shifted operand register cuts it. */
  function PartialSum(w: nat, a: nat, b: nat, i: nat): nat {
    if i == 0 then 0
    else PartialSum(w, a, b, i - 1) + (if Bit(b, i - 1) then Trunc(w, a * Pow2(i - 1)) else 0)
  }

  lemma {:induction false} PartialSumBound(w: nat, a: nat, b: nat, i: nat)
    ensures PartialSum(w, a, b, i) <= a * Trunc(i, b)
  {
    if i > 0 {
      PartialSumBound(w, a, b, i - 1);
      LowBits(b, i - 1);
      var p := Pow2(i - 1);
      Factor(a, Trunc(i - 1, b), At(Bit(b, i - 1), i - 1));
      TruncAtMost(w, a * p);
    } else {
      assert Trunc(0, b) == 0;
    }
  }

  /** Doubling the operand register drops at most its top bit. */
  lemma TruncDouble(w: nat, x: nat)
    ensures Trunc(w, Trunc(w, x) * 2) == Trunc(w, 2 * x)
  {
    var p := Pow2(w);
    var q := x / p;
    assert 2 * x == x % p * 2 + (2 * q) * p;
    TruncAddMultiple(w, x % p * 2, 2 * q);
  }

  lemma DroppedMultiples(x: nat, p: nat, s0: nat, s1: nat, c: nat, lost: nat) returns (lost': nat)
    requires p > 0
    requires s1 + c * p == s0 + x % p
    ensures s1 + lost' * p == s0 + lost * p + x
  {
    var cut := x / p;
    lost' := lost + cut + c;
    Accumulate(s0, s1, x % p, cut, c, lost, p);
  }

  lemma Accumulate(s0: int, s1: int, x: int, cut: int, c: int, k: int, p: int)
    requires s1 + c * p == s0 + x
    ensures s1 + (k + cut + c) * p == s0 + k * p + (cut * p + x)
  {
    Distribute(k, cut, c, p);
  }

  /** The state of the multiplication before step `i`: `carries` counts the carries out of the adder,
      `lost` all multiples of 2^w dropped, by the adder or by the shift of `a`. */
  ghost predicate Multiplying(w: nat, a: nat, b: nat, i: nat, r: nat, lost: nat, carries: nat) {
    && r < Pow2(w)
    && r + lost * Pow2(w) == a * Trunc(i, b)
    && r + carries * Pow2(w) == PartialSum(w, a, b, i)
  }

  lemma MultiplyStart(w: nat, a: nat, b: nat)
    ensures Multiplying(w, a, b, 0, 0, 0, 0) && Pow2(0) == 1
  {
    FirstColumn(a, b);
  }

  lemma SkipStep(w: nat, a: nat, b: nat, i: nat, r: nat, lost: nat, carries: nat)
    requires Multiplying(w, a, b, i, r, lost, carries) && !Bit(b, i)
    ensures Multiplying(w, a, b, i + 1, r, lost, carries)
  {
    hide Bit, Trunc, Pow2;
    LowBits(b, i);
  }

  lemma AddStep(w: nat, a: nat, b: nat, i: nat, s: nat, lost: nat, carries: nat, r: nat, carry: bool)
    returns (lost': nat)
    requires Multiplying(w, a, b, i, s, lost, carries) && Bit(b, i)
    requires r < Pow2(w) && r + At(carry, w) == s + Trunc(w, a * Pow2(i))
    ensures Multiplying(w, a, b, i + 1, r, lost', carries + Num(carry))
  {
    hide Bit, Trunc, Pow2;
    var x, t := a * Pow2(i), Trunc(w, a * Pow2(i));
    LowBits(b, i);
    Factor(a, Trunc(i, b), Pow2(i));
    TruncIsRemainder(w, x);
    lost' := DroppedMultiples(x, Pow2(w), s, r, Num(carry), lost);
    Accumulate(s, r, t, 0, Num(carry), carries, Pow2(w));
  }

  lemma TruncIsRemainder(w: nat, x: int)
    ensures Trunc(w, x) == x % Pow2(w)
  {
  }

  lemma MultiplyEnd(w: nat, a: nat, b: nat, r: nat, lost: nat, carries: nat)
    requires b < Pow2(w) && Multiplying(w, a, b, w, r, lost, carries)
    ensures r == Trunc(w, a * b)
    ensures carries > 0 <==> PartialSum(w, a, b, w) >= Pow2(w)
  {
    hide Trunc, Pow2, PartialSum;
    TruncSmall(w, b);
    TruncAddMultiple(w, r, lost);
    TruncSmall(w, r);
    CarriesOut(Pow2(w), r, carries);
  }

  /** The bit of `b` that is tested next, and both operand registers after their shifts. */
  lemma ShiftedOperands(w: nat, a: nat, b: nat, i: nat)
    ensures And(Shr(b, i), 1) != 0 <==> Bit(b, i)
    ensures Shr(b, i) / 2 == Shr(b, i + 1)
    ensures Trunc(w, Trunc(w, a * Pow2(i)) * 2) == Trunc(w, a * Pow2(i + 1))
  {
    ShrIsQuotient(b, i);
    BitIsShiftParity(b, i);
    AndMask(Shr(b, i), 0);
    TruncDouble(w, a * Pow2(i));
    assert 2 * (a * Pow2(i)) == a * Pow2(i + 1);
  }

  method Multiply(w: nat, a: nat, b: nat, overflowIn: bool) returns (r: nat, overflow: bool)
    requires 0 < w && a < Pow2(w) && b < Pow2(w)
    ensures r == Trunc(w, a * b)
    ensures overflow <==> overflowIn || PartialSum(w, a, b, w) >= Pow2(w)
  {
    hide And, Bit, Trunc, Pow2, PartialSum, Multiplying;
    overflow := overflowIn;
    var aBits, bBits := a, b;
    r := 0;
    ghost var lost: nat, carries: nat := 0, 0;
    TruncSmall(w, a);
    MultiplyStart(w, a, b);
    for i := 0 to w
      invariant aBits == Trunc(w, a * Pow2(i)) && bBits == Shr(b, i)
      invariant r < Pow2(w) && Multiplying(w, a, b, i, r, lost, carries)
      invariant overflow <==> overflowIn || carries > 0
    {
      ShiftedOperands(w, a, b, i);
      if And(bBits, 1) != 0 {
        ghost var s := r;
        var carry;
        r, carry := Add(w, r, aBits, false);
        overflow := overflow || carry;
        lost := AddStep(w, a, b, i, s, lost, carries, r, carry);
        carries := carries + Num(carry);
      } else {
        SkipStep(w, a, b, i, r, lost, carries);
      }
      aBits := Trunc(w, aBits * 2);
      bBits := bBits / 2;
    }
    MultiplyEnd(w, a, b, r, lost, carries);
  }

  lemma CarriesOut(p: nat, r: nat, carries: nat)
    requires r < p
    ensures carries > 0 <==> r + carries * p >= p
  {
    if carries > 0 {
      assert carries * p == (carries - 1) * p + p;
    }
  }

  /** A raised overflow flag is never a false alarm. */
  lemma OverflowIsReal(w: nat, a: nat, b: nat)
    requires b < Pow2(w)
    requires PartialSum(w, a, b, w) >= Pow2(w)
    ensures a * b >= Pow2(w)
  {
    PartialSumBound(w, a, b, w);
    TruncSmall(w, b);
  }

  /** No one is shifted out of the operand register while a bit of `b` still needs it. */
  ghost predicate NothingLost(w: nat, a: nat, b: nat, i: nat) {
    forall j: nat :: j < i && Bit(b, j) ==> a * Pow2(j) < Pow2(w)
  }

  lemma {:induction false} PartialSumExact(w: nat, a: nat, b: nat, i: nat)
    requires NothingLost(w, a, b, i)
    ensures PartialSum(w, a, b, i) == a * Trunc(i, b)
  {
    if i > 0 {
      PartialSumExact(w, a, b, i - 1);
      LowBits(b, i - 1);
      Factor(a, Trunc(i - 1, b), At(Bit(b, i - 1), i - 1));
      TruncAtMost(w, a * Pow2(i - 1));
    } else {
      assert Trunc(0, b) == 0;
    }
  }

  lemma LostMeansOverflow(w: nat, a: nat, b: nat)
    requires b < Pow2(w) && !NothingLost(w, a, b, w)
    ensures a * b >= Pow2(w)
  {
    var j: nat :| j < w && Bit(b, j) && a * Pow2(j) >= Pow2(w);
    if b < Pow2(j) {
      BitAboveClear(b, j, j);
    }
    MulMono(a, Pow2(j), b);
  }

  /** The weight of the highest one of `b`, or 0. */
  function TopPower(b: nat): nat {
    if b <= 1 then b else 2 * TopPower(b / 2)
  }

  lemma {:induction false} TopPowerIs(b: nat) returns (t: nat)
    requires b > 0
    ensures TopPower(b) == Pow2(t) && Pow2(t) <= b < Pow2(t + 1) && Bit(b, t)
  {
    if b == 1 {
      t := 0;
      assert Pow2(1) == 2;
    } else {
      var u := TopPowerIs(b / 2);
      t := u + 1;
    }
  }

  /** The highest one of `b` is the one whose partial product loses bits first. */
  lemma LostAtTheTop(w: nat, a: nat, b: nat)
    requires b < Pow2(w)
    ensures NothingLost(w, a, b, w) <==> a * TopPower(b) < Pow2(w)
  {
    if b == 0 {
      forall j: nat
        ensures !Bit(b, j)
      {
        BitZero(j);
      }
    } else {
      var t := TopPowerIs(b);
      if w <= t {
        BitAboveClear(b, w, t);
      }
      forall j: nat | j < w && Bit(b, j)
        ensures a * Pow2(j) <= a * Pow2(t)
      {
        if t < j {
          BitAboveClear(b, t + 1, j);
        }
        Pow2Mono(j, t);
        MulMono(a, Pow2(j), Pow2(t));
      }
    }
  }

  /** When the flag tells whether the product fits.  It does if `a` times the highest one of `b`
      fits.  Otherwise the product does not fit, and the flag is right only if the additions of
      what is left of the partial products overflow by themselves. */
  lemma OverflowExact(w: nat, a: nat, b: nat)
    requires b < Pow2(w)
    ensures a * TopPower(b) < Pow2(w) ==> (PartialSum(w, a, b, w) >= Pow2(w) <==> a * b >= Pow2(w))
    ensures a * TopPower(b) >= Pow2(w) ==> a * b >= Pow2(w)
    ensures (PartialSum(w, a, b, w) >= Pow2(w) <==> a * b >= Pow2(w))
      <==> a * TopPower(b) < Pow2(w) || PartialSum(w, a, b, w) >= Pow2(w)
  {
    hide PartialSum, NothingLost, TopPower;
    TruncSmall(w, b);
    LostAtTheTop(w, a, b);
    if NothingLost(w, a, b, w) {
      PartialSumExact(w, a, b, w);
    } else {
      LostMeansOverflow(w, a, b);
    }
  }

  /** For a power of two there is only one partial product, so the flag is never raised: it is
      wrong for every such product that does not fit. */
  lemma {:induction false} PowerNeverOverflows(w: nat, a: nat, t: nat, i: nat)
    ensures PartialSum(w, a, Pow2(t), i) == if t < i then Trunc(w, a * Pow2(t)) else 0
  {
    if i > 0 {
      PowerNeverOverflows(w, a, t, i - 1);
      BitPow2(t, i - 1);
    }
  }

  /** Twice the top bit: the product does not fit, and the flag stays clear. */
  lemma MissedOverflow(w: nat)
    requires w > 1
    ensures 2 < Pow2(w) && Pow2(w - 1) * 2 == Pow2(w)
    ensures PartialSum(w, Pow2(w - 1), 2, w) < Pow2(w)
  {
    Pow2Mono(2, w);
    PowerNeverOverflows(w, Pow2(w - 1), 1, w);
    assert Pow2(1) == 2;
  }
}
