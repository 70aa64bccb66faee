/** Machine words as natural numbers: powers of two, single bits, and the bitwise
    operators of the source, for words of any width. */
module Bits {
  import opened Arithmetic

  function Pow2(n: nat): (p: nat)
    ensures p > 0
  {
    if n == 0 then 1 else 2 * Pow2(n - 1)
  }

  /** The value of a C++ `bit` inside an arithmetic expression. */
  function Num(b: bool): nat {
    if b then 1 else 0
  }

  /** The word that holds `b` at position `i` and zeros elsewhere. */
  function At(b: bool, i: nat): nat {
    if b then Pow2(i) else 0
  }

  /** Conversion of an integer to an unsigned type of `w` bits. */
  function Trunc(w: nat, x: int): (r: nat)
    ensures r < Pow2(w)
  {
    x % Pow2(w)
  }

  /** `n << k`, before it is cut to a width. */
  function Shl(n: nat, k: nat): nat {
    if k == 0 then n else 2 * Shl(n, k - 1)
  }

  /** `n >> k` */
  function Shr(n: nat, k: nat): nat {
    if k == 0 then n else Shr(n, k - 1) / 2
  }

  predicate Bit(n: nat, i: nat) {
    if i == 0 then n % 2 == 1 else Bit(n / 2, i - 1)
  }

  function And(a: nat, b: nat): (r: nat)
    decreases a
  {
    if a == 0 then 0 else 2 * And(a / 2, b / 2) + Num(a % 2 == 1 && b % 2 == 1)
  }

  function Or(a: nat, b: nat): (r: nat)
    decreases a + b
  {
    if a + b == 0 then 0 else 2 * Or(a / 2, b / 2) + Num(a % 2 == 1 || b % 2 == 1)
  }

  function Xor(a: nat, b: nat): (r: nat)
    decreases a + b
  {
    if a + b == 0 then 0 else 2 * Xor(a / 2, b / 2) + Num(a % 2 != b % 2)
  }

  // ---------------------------------------------------------------- arithmetic

  lemma {:induction false} Pow2Add(a: nat, b: nat)
    ensures Pow2(a + b) == Pow2(a) * Pow2(b)
  {
    if a > 0 {
      Pow2Add(a - 1, b);
    }
  }

  lemma {:induction false} Pow2Mono(a: nat, b: nat)
    requires a <= b
    ensures Pow2(a) <= Pow2(b)
    ensures a < b ==> 2 * Pow2(a) <= Pow2(b)
    decreases b - a
  {
    if a + 1 < b {
      Pow2Mono(a, b - 1);
    }
  }

  lemma TruncAddMultiple(w: nat, x: int, k: int)
    ensures Trunc(w, x + k * Pow2(w)) == Trunc(w, x)
  {
    var p := Pow2(w);
    assert x + k * p == (x / p + k) * p + x % p;
    DivModUnique(x + k * p, p, x / p + k, x % p);
  }

  lemma TruncSmall(w: nat, x: nat)
    requires x < Pow2(w)
    ensures Trunc(w, x) == x
  {
    DivModUnique(x, Pow2(w), 0, x);
  }

  lemma TruncAtMost(w: nat, x: nat)
    ensures Trunc(w, x) <= x
    ensures x < Pow2(w) ==> Trunc(w, x) == x
  {
    var p := Pow2(w);
    assert x == (x / p) * p + x % p;
    if x < p {
      TruncSmall(w, x);
    }
  }

  /** Peeling the highest of the low `i + 1` bits. */
  lemma {:induction false} LowBits(n: nat, i: nat)
    ensures Trunc(i + 1, n) == Trunc(i, n) + At(Bit(n, i), i)
  {
    if i == 0 {
    } else {
      var h, b := n / 2, n % 2;
      LowBits(h, i - 1);
      HalfTrunc(n, i);
      HalfTrunc(n, i + 1);
    }
  }

  /** The low `i` bits of `n`, from the low `i - 1` bits of `n / 2`. */
  lemma HalfTrunc(n: nat, i: nat)
    requires i > 0
    ensures Trunc(i, n) == 2 * Trunc(i - 1, n / 2) + n % 2
    ensures n / Pow2(i) == n / 2 / Pow2(i - 1)
  {
    var p, h := Pow2(i - 1), n / 2;
    var q, r := h / p, h % p;
    assert h == q * p + r;
    assert n == q * (2 * p) + (2 * r + n % 2);
    DivModUnique(n, 2 * p, q, 2 * r + n % 2);
  }

  /** Cutting keeps the bits below the width. */
  lemma {:induction false} BitOfTrunc(w: nat, n: nat, i: nat)
    ensures Bit(Trunc(w, n), i) == (i < w && Bit(n, i))
  {
    hide Trunc;
    if w == 0 || i >= w {
      HighBitsClear(Trunc(w, n), w);
    } else {
      HalfTrunc(n, w);
      if i > 0 {
        BitOfTrunc(w - 1, n / 2, i - 1);
      }
    }
  }

  /** Cutting twice is cutting once, to the smaller width. */
  lemma TruncTrunc(w: nat, v: nat, x: int)
    requires w <= v
    ensures Trunc(w, Trunc(v, x)) == Trunc(w, x)
  {
    hide Pow2;
    var q, r, a, b := x / Pow2(v), x % Pow2(v), Pow2(v - w), Pow2(w);
    Pow2Add(v - w, w);
    assert x == q * (a * b) + r;
    Associate(q, a, b);
    TruncAddMultiple(w, r, q * a);
  }

  /** Bit `i` as the parity of the shifted word, and the shift by one more place. */
  lemma {:induction false} BitIsShiftParity(n: nat, i: nat)
    ensures Bit(n, i) <==> n / Pow2(i) % 2 == 1
    ensures n / Pow2(i + 1) == n / Pow2(i) / 2
  {
    if i == 0 {
      assert Pow2(1) == 2;
    } else {
      BitIsShiftParity(n / 2, i - 1);
      HalfTrunc(n, i);
      HalfTrunc(n, i + 1);
    }
  }

  // ---------------------------------------------------------------- shifts

  lemma {:induction false} ShlIsProduct(n: nat, k: nat)
    ensures Shl(n, k) == n * Pow2(k)
  {
    if k > 0 {
      ShlIsProduct(n, k - 1);
    }
  }

  /** Nothing is left of a word after a shift by its width or more. */
  lemma ShiftedOut(w: nat, n: nat, k: nat)
    requires k >= w
    ensures Trunc(w, Shl(n, k)) == 0
  {
    hide Pow2, Shl, Trunc;
    ShlIsProduct(n, k);
    Pow2Add(k - w, w);
    Associate(n, Pow2(k - w), Pow2(w));
    TruncAddMultiple(w, 0, n * Pow2(k - w));
    TruncSmall(w, 0);
  }

  lemma {:induction false} ShlMono(m: nat, k: nat, n: nat, j: nat)
    requires m <= n && k <= j
    ensures Shl(m, k) <= Shl(n, j)
    decreases j
  {
    if k > 0 {
      ShlMono(m, k - 1, n, j - 1);
    } else if j > 0 {
      ShlMono(m, k, n, j - 1);
    }
  }

  lemma {:induction false} ShlDouble(n: nat, b: bool, k: nat)
    ensures Shl(2 * n + Num(b), k) == 2 * Shl(n, k) + At(b, k)
  {
    if k > 0 {
      ShlDouble(n, b, k - 1);
    }
  }

  lemma {:induction false} ShlPow2(a: nat, k: nat)
    ensures Shl(Pow2(a), k) == Pow2(a + k)
  {
    if k > 0 {
      ShlPow2(a, k - 1);
    }
  }

  lemma {:induction false} ShlMinus(m: nat, n: nat, k: nat)
    requires n <= m
    ensures Shl(n, k) <= Shl(m, k) && Shl(m - n, k) == Shl(m, k) - Shl(n, k)
  {
    if k > 0 {
      ShlMinus(m, n, k - 1);
    }
  }

  lemma {:induction false} ShrShl(n: nat, k: nat)
    ensures Shr(Shl(n, k), k) == n
  {
    if k > 0 {
      ShrHalf(Shl(n, k), k);
      ShrShl(n, k - 1);
    }
  }

  lemma {:induction false} ShrHalf(n: nat, k: nat)
    requires k > 0
    ensures Shr(n, k) == Shr(n / 2, k - 1)
  {
    if k > 1 {
      ShrHalf(n, k - 1);
    }
  }

  lemma {:induction false} ShrIsQuotient(n: nat, k: nat)
    ensures Shr(n, k) == n / Pow2(k)
  {
    if k > 0 {
      ShrIsQuotient(n, k - 1);
      BitIsShiftParity(n, k - 1);
    }
  }

  // ---------------------------------------------------------------- single bits

  lemma {:induction false} HighBitsClear(n: nat, i: nat)
    requires n < Pow2(i)
    ensures !Bit(n, i)
    ensures forall j :: i <= j ==> !Bit(n, j)
  {
    forall j | i <= j
      ensures !Bit(n, j)
    {
      BitAboveClear(n, i, j);
    }
  }

  lemma {:induction false} BitAboveClear(n: nat, i: nat, j: nat)
    requires n < Pow2(i) && i <= j
    ensures !Bit(n, j)
  {
    if j > 0 {
      if i == 0 {
        BitAboveClear(n / 2, 0, j - 1);
      } else {
        BitAboveClear(n / 2, i - 1, j - 1);
      }
    }
  }

  /** A place below `k` that holds a one. */
  lemma {:induction false} LowOne(k: nat, r: nat) returns (j: nat)
    requires Trunc(k, r) > 0
    ensures j < k && Bit(r, j)
  {
    hide Bit, Trunc;
    if k == 0 {
      TruncBound(r);
    }
    LowBits(r, k - 1);
    if Bit(r, k - 1) {
      j := k - 1;
    } else {
      j := LowOne(k - 1, r);
    }
  }

  /** A word whose bits are all below `i` is below 2^i. */
  lemma {:induction false} BitsBound(n: nat, i: nat)
    requires forall j :: i <= j ==> !Bit(n, j)
    ensures n < Pow2(i)
  {
    if n == 0 {
    } else {
      if i > 0 {
        assert forall j :: i - 1 <= j ==> Bit(n / 2, j) == Bit(n, j + 1);
        BitsBound(n / 2, i - 1);
      } else {
        assert !Bit(n, 0);
        assert forall j :: 0 <= j ==> Bit(n / 2, j) == Bit(n, j + 1);
        BitsBound(n / 2, 0);
      }
    }
  }

  lemma {:induction false} Extensional(a: nat, b: nat)
    requires forall i: nat :: Bit(a, i) == Bit(b, i)
    ensures a == b
    decreases a + b
  {
    if a + b > 0 {
      assert Bit(a, 0) == Bit(b, 0);
      forall i: nat
        ensures Bit(a / 2, i) == Bit(b / 2, i)
      {
        assert Bit(a, i + 1) == Bit(b, i + 1);
      }
      Extensional(a / 2, b / 2);
    }
  }

  lemma {:induction false} BitZero(i: nat)
    ensures !Bit(0, i)
  {
    if i > 0 {
      BitZero(i - 1);
    }
  }

  lemma AndParts(a: nat, b: nat)
    ensures And(a, b) / 2 == And(a / 2, b / 2)
    ensures And(a, b) % 2 == 1 <==> a % 2 == 1 && b % 2 == 1
  {
  }

  lemma OrParts(a: nat, b: nat)
    ensures Or(a, b) / 2 == Or(a / 2, b / 2)
    ensures Or(a, b) % 2 == 1 <==> a % 2 == 1 || b % 2 == 1
  {
  }

  lemma {:induction false} BitAnd(a: nat, b: nat, i: nat)
    ensures Bit(And(a, b), i) == (Bit(a, i) && Bit(b, i))
    decreases i
  {
    hide And;
    AndParts(a, b);
    if i > 0 {
      BitAnd(a / 2, b / 2, i - 1);
    }
  }

  lemma {:induction false} BitOr(a: nat, b: nat, i: nat)
    ensures Bit(Or(a, b), i) == (Bit(a, i) || Bit(b, i))
    decreases i
  {
    hide Or;
    OrParts(a, b);
    if i > 0 {
      BitOr(a / 2, b / 2, i - 1);
    }
  }

  /** Left shift by `k`: bits move up, zeros come in. */
  lemma {:induction false} BitShiftLeft(n: nat, k: nat, i: nat)
    ensures Bit(Shl(n, k), i) == (i >= k && Bit(n, i - k))
  {
    if k > 0 && i > 0 {
      BitShiftLeft(n, k - 1, i - 1);
    }
  }

  /** Right shift by `k`: bits move down. */
  lemma {:induction false} BitShiftRight(n: nat, k: nat, i: nat)
    ensures Bit(Shr(n, k), i) == Bit(n, i + k)
  {
    if k > 0 {
      ShrHalf(n, k);
      BitShiftRight(n / 2, k - 1, i);
    }
  }

  lemma {:induction false} BitPow2(k: nat, i: nat)
    ensures Bit(Pow2(k), i) == (i == k)
  {
    if k == 0 {
      if i > 0 {
        BitZero(i - 1);
      }
    } else if i > 0 {
      BitPow2(k - 1, i - 1);
    }
  }

  /** The word with ones at positions 0 to k - 1. */
  lemma {:induction false} BitOnes(k: nat, i: nat)
    ensures Bit(Pow2(k) - 1, i) == (i < k)
  {
    if k == 0 {
      BitZero(i);
    } else {
      assert (Pow2(k) - 1) / 2 == Pow2(k - 1) - 1;
      if i > 0 {
        BitOnes(k - 1, i - 1);
      }
    }
  }

  /** `~m` in `w` bits flips every bit. */
  lemma {:induction false} ComplementBit(w: nat, m: nat, j: nat)
    requires m < Pow2(w) && j < w
    ensures Bit(Pow2(w) - 1 - m, j) == !Bit(m, j)
  {
    assert (Pow2(w) - 1 - m) / 2 == Pow2(w - 1) - 1 - m / 2;
    if j > 0 {
      ComplementBit(w - 1, m / 2, j - 1);
    }
  }

  // ---------------------------------------------------------------- the operators on one bit position

  /** `n & (1 << i)` */
  lemma {:induction false} AndMask(n: nat, i: nat)
    ensures And(n, Pow2(i)) == And(Pow2(i), n) == At(Bit(n, i), i)
  {
    AndZero(n);
    if i == 0 {
      AndZero(n / 2);
    } else {
      AndMask(n / 2, i - 1);
    }
  }

  /** Testing the top bit of a word of i + 1 bits. */
  lemma TopBit(n: nat, i: nat)
    requires n < Pow2(i + 1)
    ensures And(n, Pow2(i)) != 0 <==> n >= Pow2(i)
  {
    AndMask(n, i);
    LowBits(n, i);
    TruncSmall(i + 1, n);
  }

  lemma {:induction false} AndZero(n: nat)
    ensures And(n, 0) == 0 && And(0, n) == 0
  {
    if n > 0 {
      AndZero(n / 2);
    }
  }

  lemma {:induction false} OrZero(n: nat)
    ensures Or(n, 0) == n && Or(0, n) == n
  {
    if n > 0 {
      OrZero(n / 2);
    }
  }

  /** Setting a bit above all bits of `s` adds its weight. */
  lemma {:induction false} OrAbove(s: nat, b: bool, i: nat)
    requires s < Pow2(i)
    ensures Or(s, At(b, i)) == s + At(b, i)
  {
    OrZero(s);
    if b && i > 0 {
      var p := Pow2(i - 1);
      OrAbove(s / 2, b, i - 1);
      assert Or(s, 2 * p) == 2 * Or(s / 2, p) + s % 2;
    }
  }

  /** `high << k | low` */
  lemma {:induction false} OrShifted(high: nat, low: nat, k: nat)
    requires low < Pow2(k)
    ensures Or(Shl(high, k), low) == Shl(high, k) + low
  {
    OrZero(Shl(high, k));
    if k > 0 {
      OrShifted(high, low / 2, k - 1);
    }
  }

  /** Filling in the lowest bit. */
  lemma OrEven(e: nat, b: bool)
    requires e % 2 == 0
    ensures Or(e, Num(b)) == e + Num(b)
  {
    OrZero(e);
    OrZero(e / 2);
  }

  /** One column of a bitwise operation: both operands hold at most bit `i`. */
  lemma Column(x: bool, y: bool, i: nat)
    ensures And(At(x, i), At(y, i)) == At(x && y, i)
    ensures Or(At(x, i), At(y, i)) == At(x || y, i)
    ensures Xor(At(x, i), At(y, i)) == At(x != y, i)
  {
    var p := Pow2(i);
    Idempotent(p);
    AndZero(p);
    OrZero(p);
    XorZero(p);
  }

  lemma {:induction false} Idempotent(n: nat)
    ensures And(n, n) == n && Or(n, n) == n && Xor(n, n) == 0
  {
    if n > 0 {
      Idempotent(n / 2);
    }
  }

  lemma {:induction false} XorZero(n: nat)
    ensures Xor(n, 0) == n && Xor(0, n) == n
  {
    if n > 0 {
      XorZero(n / 2);
    }
  }

  /** Masking with ones cuts to a width. */
  lemma {:induction false} LowBitsMask(n: nat, k: nat)
    ensures And(n, Pow2(k) - 1) == Trunc(k, n)
  {
    hide Trunc, And;
    if k == 0 {
      AndZero(n);
      TruncBound(n);
    } else {
      HalfTrunc(n, k);
      LowBitsMask(n / 2, k - 1);
      AndOdd(n, Pow2(k - 1) - 1);
    }
  }

  lemma {:induction false} AndOdd(n: nat, m: nat)
    ensures And(n, 2 * m + 1) == 2 * And(n / 2, m) + n % 2
  {
    assert (2 * m + 1) / 2 == m && (2 * m + 1) % 2 == 1;
    AndZero(m);
  }

  lemma TruncBound(n: nat)
    ensures Trunc(0, n) == 0
  {
  }
}
