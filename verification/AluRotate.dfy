/** The four rotates of `src/ALU.hpp`.  A rotate of `m` bits is multiplication by a power
    of two modulo 2^m - 1; through the carry, the carry is the top bit of the word.  Operands
    may be narrower than the word: the left rotates then leave what they shift out of the
    operand in the higher bits of the word. */
module AluRotate {
  import opened Arithmetic
  import opened Bits
  import opened DataTypes

  /** `v` of `m` bits, rotated left by `k`.  All ones is the second representation of
      zero modulo 2^m - 1 and is a fixed point. */
  function Ring(m: nat, v: nat, k: nat): nat
    requires m > 0
  {
    if v == Pow2(m) - 1 then v else v * Pow2(k) % (Pow2(m) - 1)
  }

  lemma ModProduct(x: nat, y: nat, m: nat)
    requires m > 0
    ensures (x % m) * y % m == x * y % m
  {
    var q, r := x / m, x % m;
    var s, t := r * y / m, r * y % m;
    Factor(y, q * m, r);
    assert q * m * y == (q * y) * m;
    Factor(m, q * y, s);
    assert r * y == s * m + t;
    DivModUnique(x * y, m, q * y + s, t);
  }

  lemma RingBound(m: nat, v: nat, k: nat)
    requires m > 0 && v < Pow2(m)
    ensures Ring(m, v, k) < Pow2(m)
    ensures Ring(m, v, k) == Pow2(m) - 1 <==> v == Pow2(m) - 1
  {
  }

  /** Counts add up. */
  lemma RingCompose(m: nat, v: nat, j: nat, k: nat)
    requires m > 0 && v < Pow2(m)
    ensures Ring(m, Ring(m, v, j), k) == Ring(m, v, j + k)
  {
    hide Pow2;
    RingBound(m, v, j);
    if v != Pow2(m) - 1 {
      ModProduct(v * Pow2(j), Pow2(k), Pow2(m) - 1);
      Pow2Add(j, k);
      Associate(v, Pow2(j), Pow2(k));
    }
  }

  /** Rotating by 0, and by the full length of the ring any number of times, is the identity. */
  lemma {:induction false} RingFull(m: nat, v: nat, t: nat)
    requires m > 0 && v < Pow2(m)
    ensures Ring(m, v, t * m) == v
  {
    if t == 0 {
      if v < Pow2(m) - 1 {
        DivModUnique(v, Pow2(m) - 1, 0, v);
      }
    } else {
      RingFull(m, v, t - 1);
      assert (t - 1) * m + m == t * m;
      RingCompose(m, v, (t - 1) * m, m);
      if v < Pow2(m) - 1 {
        Factor(v, Pow2(m) - 1, 1);
        DivModUnique(v * Pow2(m), Pow2(m) - 1, v, v);
      }
    }
  }

  lemma FullTurns(m: nat, k: nat)
    requires m > 0
    ensures (m - 1) * k >= 0 && k + (m - 1) * k == k * m
  {
  }

  /** Rotations can be undone: by rotating on to a full turn. */
  lemma RingInjective(m: nat, u: nat, v: nat, k: nat)
    requires m > 0 && u < Pow2(m) && v < Pow2(m) && Ring(m, u, k) == v
    ensures u == Ring(m, v, (m - 1) * k)
  {
    hide Ring;
    RingCompose(m, u, k, (m - 1) * k);
    FullTurns(m, k);
    RingFull(m, u, k);
  }

  /** A rotation by one place: the top bit comes back at the bottom. */
  lemma RingOne(m: nat, v: nat)
    requires m > 0 && v < Pow2(m)
    ensures Ring(m, v, 1) == if v >= Pow2(m - 1) then 2 * v - Pow2(m) + 1 else 2 * v
  {
    assert Pow2(1) == 2;
    var p := Pow2(m) - 1;
    if v < p {
      if v >= Pow2(m - 1) {
        DivModUnique(v * 2, p, 1, 2 * v - p);
      } else {
        DivModUnique(v * 2, p, 0, 2 * v);
      }
    }
  }

  /** A word of `w` bits with the carry above it. */
  function Packed(w: nat, carry: bool, n: nat): nat {
    At(carry, w) + n
  }

  lemma CountMask(count: nat)
    ensures And(count, 31) == count % 32
  {
    assert Pow2(5) == 32;
    LowBitsMask(count, 5);
  }

  /** `(stack << 1) | bit` in `w` bits, on the low `s` bits of the stack. */
  lemma ShiftInLeft(w: nat, s: nat, n: nat, b: bool)
    requires 0 < s <= w && n < Pow2(w)
    ensures And(n, Pow2(s - 1)) != 0 <==> Bit(n, s - 1)
    ensures var r := Or(Trunc(w, n * 2), Num(b));
            && r < Pow2(w)
            && Trunc(s, r) == 2 * Trunc(s, n) + Num(b) - At(Bit(n, s - 1), s)
            && (Bit(n, s - 1) <==> Trunc(s, n) >= Pow2(s - 1))
            && (Bit(r, 0) <==> b)
            && (n * 2 < Pow2(w) ==> r == n * 2 + Num(b))
  {
    hide And, Or, Trunc, Bit, Pow2;
    var x := Trunc(w, n * 2);
    AndMask(n, s - 1);
    LowBits(n, s - 1);
    Trunc2(s, w, n);
    OrEven(x, b);
    var top, t := Bit(n, s - 1), Trunc(s, n);
    TruncHalves(s, x, b);
    NextPower(s - 1);
    NextPower(w - 1);
    TruncSmall(s, t * 2 - At(top, s));
    TruncAddMultiple(s, t * 2 - At(top, s), Num(top));
    if n * 2 < Pow2(w) {
      TruncSmall(w, n * 2);
    }
  }

  lemma NextPower(i: nat)
    ensures Pow2(i + 1) == 2 * Pow2(i)
  {
  }

  /** Doubling in `w` bits, read in `s` bits. */
  lemma Trunc2(s: nat, w: nat, n: nat)
    requires 0 < s <= w
    ensures Trunc(s, Trunc(w, n * 2)) == Trunc(s, Trunc(s, n) * 2)
    ensures Trunc(w, n * 2) % 2 == 0 && Trunc(w, n * 2) < Pow2(w)
  {
    hide Pow2;
    TruncTrunc(s, w, n * 2);
    var p, q := Pow2(s), n / Pow2(s);
    assert n * 2 == Trunc(s, n) * 2 + (2 * q) * p;
    TruncAddMultiple(s, Trunc(s, n) * 2, 2 * q);
    EvenTrunc(w, n);
  }

  lemma EvenTrunc(w: nat, n: nat)
    requires w > 0
    ensures Trunc(w, n * 2) % 2 == 0
  {
    hide Trunc, Pow2;
    HalfTrunc(n * 2, w);
  }

  /** Filling in the lowest bit commutes with cutting. */
  lemma TruncHalves(s: nat, x: nat, b: bool)
    requires s > 0 && x % 2 == 0
    ensures Trunc(s, x + Num(b)) == Trunc(s, x) + Num(b)
    ensures Bit(x + Num(b), 0) <==> b
  {
    hide Trunc;
    HalfTrunc(x, s);
    HalfTrunc(x + Num(b), s);
    assert (x + Num(b)) / 2 == x / 2;
  }

  /** The bits of `(stack << 1) | bit`. */
  lemma ShiftInBits(w: nat, n: nat, b: bool, j: nat)
    requires 0 < w && n < Pow2(w)
    ensures Bit(Or(Trunc(w, n * 2), Num(b)), j) == if j == 0 then b else j < w && Bit(n, j - 1)
  {
    hide And, Or, Trunc, Pow2;
    EvenTrunc(w, n);
    OrEven(Trunc(w, n * 2), b);
    BitOfTrunc(w, n * 2, j);
    var x := Trunc(w, n * 2);
    if j > 0 {
      assert (x + Num(b)) / 2 == x / 2 && n * 2 / 2 == n;
    }
  }

  /** `(stack >> 1) | (bit << (w - 1))` */
  lemma ShiftInRight(w: nat, n: nat, b: bool)
    requires 0 < w && n < Pow2(w)
    ensures And(n, 1) != 0 <==> n % 2 == 1
    ensures Or(n / 2, At(b, w - 1)) == n / 2 + At(b, w - 1)
  {
    AndMask(n, 0);
    OrAbove(n / 2, b, w - 1);
  }

  /** The stack of a left rotate as a number, for at most `s` steps: all of it is still there. */
  ghost predicate Widened(w: nat, s: nat, n: nat, i: nat, r: nat) {
    i <= s && 2 * s <= w ==> Shl(n, i) <= r < Shl(n, i) + Pow2(i)
  }

  /** What was shifted out of the operand repeats what was shifted in, with the period of the ring. */
  ghost predicate Periodic(w: nat, r: nat, period: nat, top: nat) {
    forall j: nat {:trigger Bit(r, j)} :: period <= j < w ==> Bit(r, j) == (j < top && Bit(r, j - period))
  }

  lemma WidenedStep(w: nat, s: nat, n: nat, i: nat, r: nat, b: bool)
    requires 0 < s <= w && n < Pow2(s) && r < Pow2(w) && Widened(w, s, n, i, r)
    ensures Widened(w, s, n, i + 1, Or(Trunc(w, r * 2), Num(b)))
  {
    hide Or, Trunc, Bit, And;
    if i + 1 <= s && 2 * s <= w {
      ShlMono(n + 1, i, Pow2(s), i);
      ShlPlusOne(n, i);
      ShlPow2(s, i);
      Pow2Mono(s + i + 1, w);
      ShiftInLeft(w, s, r, b);
    }
  }

  lemma {:induction false} ShlPlusOne(n: nat, i: nat)
    ensures Shl(n + 1, i) == Shl(n, i) + Pow2(i)
  {
    if i > 0 {
      ShlPlusOne(n, i - 1);
    }
  }

  /** After at most `s` steps nothing was shifted out if and only if the operand had room. */
  lemma NarrowWhenRoom(w: nat, s: nat, n: nat, i: nat, r: nat)
    requires i <= s && 2 * s <= w && Widened(w, s, n, i, r)
    ensures r < Pow2(s) <==> n < Pow2(s - i)
  {
    ShlPow2(s - i, i);
    ShlPlusOne(n, i);
    if n < Pow2(s - i) {
      ShlMono(n + 1, i, Pow2(s - i), i);
    } else {
      ShlMono(Pow2(s - i), i, n, i);
    }
  }

  /** When the word left of a rotate of `s` bits through the carry is no wider than the operand: the
      operand has room for the count.  Beyond `s` steps nothing may be left at all, except the top bit
      where the word has no place for it higher up. */
  predicate CarryRingFits(w: nat, s: nat, carry: bool, n: nat, k: nat)
    requires 0 < s
  {
    if k <= s then n < Pow2(s - k)
    else
      var v := Ring(s + 1, Packed(s, carry, n), k);
      v == 0 || (w == 2 * s && v == Pow2(s - 1))
  }

  predicate RingFits(s: nat, n: nat, k: nat)
    requires 0 < s
  {
    if k <= s then n < Pow2(s - k) else n == 0
  }

  method RotateLeftCarry(w: nat, n: nat, carry: bool, count: nat, size: OpSize) returns (r: nat, carry': bool)
    requires 0 < w && (LastBitPos(w, size) == w - 1 || 2 * (LastBitPos(w, size) + 1) <= w)
    requires n < Pow2(LastBitPos(w, size) + 1)
    ensures r < Pow2(w)
    ensures var s := LastBitPos(w, size) + 1;
            Packed(s, carry', Trunc(s, r)) == Ring(s + 1, Packed(s, carry, n), count % 32)
    ensures var s := LastBitPos(w, size) + 1;
            r < Pow2(s) <==> s == w || CarryRingFits(w, s, carry, n, count % 32)
  {
    hide *;
    var lastBitPos := LastBitPos(w, size);
    ghost var s := lastBitPos + 1;
    CountMask(count);
    r, carry' := n, carry;
    LeftStart(w, s, n, carry);
    for i := 0 to And(count, 31)
      invariant r < Pow2(w)
      invariant Packed(s, carry', Trunc(s, r)) == Ring(s + 1, Packed(s, carry, n), i)
      invariant Widened(w, s, n, i, r)
      invariant Periodic(w, r, s + 1, s + i) && (s < w ==> Bit(r, s) == (i > 0 && carry'))
    {
      LeftCarryStep(w, s, r, carry', i);
      PackedBound(s, n, carry);
      RingCompose(s + 1, Packed(s, carry, n), i, 1);
      WidenedStep(w, s, n, i, r, carry');
      var out := And(r, Pow2(lastBitPos)) != 0;
      r := Or(Trunc(w, r * 2), Num(carry'));
      carry' := out;
    }
    LeftCarryEnd(w, s, n, carry, count % 32, r, carry');
  }

  lemma PackedBound(w: nat, n: nat, c: bool)
    requires n < Pow2(w)
    ensures Packed(w, c, n) < Pow2(w + 1)
  {
  }

  lemma LeftStart(w: nat, s: nat, n: nat, c: bool)
    requires 0 < s <= w && n < Pow2(s)
    ensures n < Pow2(w) && Trunc(s, n) == n && Widened(w, s, n, 0, n)
    ensures Ring(s + 1, Packed(s, c, n), 0) == Packed(s, c, n) && Ring(s, n, 0) == n
    ensures Periodic(w, n, s + 1, s) && Periodic(w, n, s, s) && !Bit(n, s)
  {
    Pow2Mono(s, w);
    TruncSmall(s, n);
    PackedBound(s, n, c);
    RingFull(s + 1, Packed(s, c, n), 0);
    RingFull(s, n, 0);
    HighBitsClear(n, s);
  }

  lemma LeftCarryStep(w: nat, s: nat, n: nat, c: bool, i: nat)
    requires 0 < s <= w && n < Pow2(w)
    requires Periodic(w, n, s + 1, s + i) && (s < w ==> Bit(n, s) == (i > 0 && c))
    ensures var r, c' := Or(Trunc(w, n * 2), Num(c)), And(n, Pow2(s - 1)) != 0;
            && r < Pow2(w)
            && Packed(s, c', Trunc(s, r)) == Ring(s + 1, Packed(s, c, Trunc(s, n)), 1)
            && Periodic(w, r, s + 1, s + i + 1) && (s < w ==> Bit(r, s) == c')
  {
    hide And, Or, Trunc, Ring, Bit;
    ShiftInLeft(w, s, n, c);
    RingOne(s + 1, Packed(s, c, Trunc(s, n)));
    var r := Or(Trunc(w, n * 2), Num(c));
    forall j: nat
      ensures Bit(r, j) == if j == 0 then c else j < w && Bit(n, j - 1)
    {
      ShiftInBits(w, n, c, j);
    }
    forall j: nat | s + 1 <= j < w
      ensures Bit(r, j) == (j < s + i + 1 && Bit(r, j - (s + 1)))
    {
      assert Bit(r, j) == Bit(n, j - 1);
      if j > s + 1 {
        assert Bit(r, j - (s + 1)) == Bit(n, j - 1 - (s + 1));
      }
    }
  }

  /** A wide word has a one from place `s` on. */
  lemma {:induction false} HighOne(w: nat, s: nat, r: nat) returns (j: nat)
    requires Pow2(s) <= r < Pow2(w)
    ensures s <= j < w && Bit(r, j)
  {
    hide Bit;
    if w <= s {
      Pow2Mono(w, s);
    }
    if r >= Pow2(w - 1) {
      j := w - 1;
      TopBit(r, j);
      AndMask(r, j);
    } else {
      j := HighOne(w - 1, s, r);
    }
  }

  /** Under a clear upper part, the places that it repeats are clear. */
  lemma {:induction false} NothingBelow(w: nat, s: nat, r: nat, period: nat, top: nat, m: nat)
    requires r < Pow2(s) && s <= period && Periodic(w, r, period, top)
    requires m + period <= w && m + period <= top
    ensures Trunc(m, r) == 0
  {
    hide Bit, Trunc;
    if m == 0 {
      TruncBound(r);
    } else {
      NothingBelow(w, s, r, period, top, m - 1);
      LowBits(r, m - 1);
      BitAboveClear(r, s, m - 1 + period);
      assert Bit(r, m - 1 + period) == Bit(r, m - 1);
    }
  }

  lemma LowClear(k: nat, r: nat, j: nat)
    requires Trunc(k, r) == 0 && j < k
    ensures !Bit(r, j)
  {
    BitOfTrunc(k, r, j);
    BitZero(j);
  }

  lemma LeftCarryEnd(w: nat, s: nat, n: nat, carry: bool, k: nat, r: nat, c: bool)
    requires 0 < s <= w && (s == w || 2 * s <= w) && n < Pow2(s) && r < Pow2(w)
    requires Packed(s, c, Trunc(s, r)) == Ring(s + 1, Packed(s, carry, n), k)
    requires Widened(w, s, n, k, r)
    requires Periodic(w, r, s + 1, s + k) && (s < w ==> Bit(r, s) == (k > 0 && c))
    ensures r < Pow2(s) <==> s == w || CarryRingFits(w, s, carry, n, k)
  {
    hide Bit, Trunc, Ring, Widened;
    if s < w {
      if k <= s {
        NarrowWhenRoom(w, s, n, k, r);
      } else {
        CarryBeyond(w, s, k, r, c);
      }
    }
  }

  /** Beyond `s` steps: the bits above the operand repeat the ring. */
  lemma CarryBeyond(w: nat, s: nat, k: nat, r: nat, c: bool)
    requires 0 < s && 2 * s <= w && s < k && r < Pow2(w)
    requires Periodic(w, r, s + 1, s + k) && Bit(r, s) == c
    ensures var v := Packed(s, c, Trunc(s, r));
            r < Pow2(s) <==> v == 0 || (w == 2 * s && v == Pow2(s - 1))
  {
    hide Bit, Trunc;
    var m := if w == 2 * s then s - 1 else s;
    LowBits(r, s - 1);
    if r < Pow2(s) {
      HighBitsClear(r, s);
      NothingBelow(w, s, r, s + 1, s + k, m);
    } else if !c && Trunc(m, r) == 0 {
      var j := HighOne(w, s, r);
      var x := WrapAgain(w, s, k, r, j);
      LowClear(m, r, x);
    }
  }

  /** A one above the operand comes from one in it. */
  lemma {:induction false} WrapAgain(w: nat, s: nat, k: nat, r: nat, j: nat) returns (x: nat)
    requires 0 < s && 2 * s <= w && s <= j < w && Bit(r, j) && !Bit(r, s)
    requires Periodic(w, r, s + 1, s + k)
    ensures x < (if w == 2 * s then s - 1 else s) && Bit(r, x)
  {
    hide Bit;
    assert Bit(r, j) == (j < s + k && Bit(r, j - (s + 1)));
    x := j - (s + 1);
    if x >= s {
      x := WrapAgain(w, s, k, r, x);
    }
  }

  /** A byte of 0x80 turned left by one leaves a one above the byte. */
  lemma ByteSpills(carry: bool)
    ensures !RingFits(8, 0x80, 1) && !CarryRingFits(32, 8, carry, 0x80, 1)
  {
    assert Pow2(7) == 0x80;
  }

  method RotateRightCarry(w: nat, n: nat, carry: bool, count: nat, size: OpSize) returns (r: nat, carry': bool)
    requires 0 < w && LastBitPos(w, size) < w && n < Pow2(LastBitPos(w, size) + 1)
    ensures var s := LastBitPos(w, size) + 1;
            r < Pow2(s) && Ring(s + 1, Packed(s, carry', r), count % 32) == Packed(s, carry, n)
  {
    hide *;
    var lastBitPos := LastBitPos(w, size);
    ghost var s := lastBitPos + 1;
    CountMask(count);
    r, carry' := n, carry;
    PackedBound(s, n, carry);
    RingFull(s + 1, Packed(s, carry, n), 0);
    for i := 0 to And(count, 31)
      invariant r < Pow2(s)
      invariant Ring(s + 1, Packed(s, carry', r), i) == Packed(s, carry, n)
    {
      RightCarryStep(s, r, carry');
      var out := And(r, 1) != 0;
      r := Or(r / 2, At(carry', lastBitPos));
      carry' := out;
      PackedBound(s, r, carry');
      RingCompose(s + 1, Packed(s, carry', r), 1, i);
    }
  }

  lemma RightCarryStep(w: nat, n: nat, c: bool)
    requires 0 < w && n < Pow2(w)
    ensures var r := Or(n / 2, At(c, w - 1));
            && r < Pow2(w)
            && Ring(w + 1, Packed(w, And(n, 1) != 0, r), 1) == Packed(w, c, n)
  {
    hide And, Or, Ring;
    ShiftInRight(w, n, c);
    RingOne(w + 1, Packed(w, And(n, 1) != 0, n / 2 + At(c, w - 1)));
  }

  /** After a count of 0 the carry is cleared, where x86 leaves it unchanged. */
  method RotateLeft(w: nat, n: nat, count: nat, size: OpSize) returns (r: nat, carry': bool)
    requires 0 < w && (LastBitPos(w, size) == w - 1 || 2 * (LastBitPos(w, size) + 1) <= w)
    requires n < Pow2(LastBitPos(w, size) + 1)
    ensures r < Pow2(w)
    ensures var s := LastBitPos(w, size) + 1; Trunc(s, r) == Ring(s, n, count % 32)
    ensures var s := LastBitPos(w, size) + 1; r < Pow2(s) <==> s == w || RingFits(s, n, count % 32)
    ensures carry' <==> count % 32 != 0 && r % 2 == 1
  {
    hide *;
    var lastBitPos := LastBitPos(w, size);
    ghost var s := lastBitPos + 1;
    CountMask(count);
    r, carry' := n, false;
    LeftStart(w, s, n, false);
    for i := 0 to And(count, 31)
      invariant r < Pow2(w) && Trunc(s, r) == Ring(s, n, i)
      invariant Widened(w, s, n, i, r) && Periodic(w, r, s, s + i)
      invariant carry' <==> i != 0 && r % 2 == 1
    {
      LeftStep(w, s, r, i);
      RingCompose(s, n, i, 1);
      carry' := And(r, Pow2(lastBitPos)) != 0;
      WidenedStep(w, s, n, i, r, carry');
      r := Or(Trunc(w, r * 2), Num(carry'));
    }
    LeftEnd(w, s, n, count % 32, r);
  }

  lemma LeftStep(w: nat, s: nat, n: nat, i: nat)
    requires 0 < s <= w && n < Pow2(w) && Periodic(w, n, s, s + i)
    ensures var top := And(n, Pow2(s - 1)) != 0;
            var r := Or(Trunc(w, n * 2), Num(top));
            && r < Pow2(w) && Trunc(s, r) == Ring(s, Trunc(s, n), 1)
            && Periodic(w, r, s, s + i + 1)
            && (top <==> r % 2 == 1)
  {
    hide And, Or, Trunc, Ring, Bit;
    var b := Bit(n, s - 1);
    ShiftInLeft(w, s, n, b);
    RingOne(s, Trunc(s, n));
    var r := Or(Trunc(w, n * 2), Num(b));
    LowestBit(r);
    forall j: nat
      ensures Bit(r, j) == if j == 0 then b else j < w && Bit(n, j - 1)
    {
      ShiftInBits(w, n, b, j);
    }
    forall j: nat | s <= j < w
      ensures Bit(r, j) == (j < s + i + 1 && Bit(r, j - s))
    {
      assert Bit(r, j) == Bit(n, j - 1);
      if j > s {
        assert Bit(r, j - s) == Bit(n, j - 1 - s);
      }
    }
  }

  lemma LowestBit(r: nat)
    ensures Bit(r, 0) <==> r % 2 == 1
  {
  }

  lemma LeftEnd(w: nat, s: nat, n: nat, k: nat, r: nat)
    requires 0 < s <= w && (s == w || 2 * s <= w) && n < Pow2(s) && r < Pow2(w)
    requires Trunc(s, r) == Ring(s, n, k) && Widened(w, s, n, k, r) && Periodic(w, r, s, s + k)
    ensures r < Pow2(s) <==> s == w || RingFits(s, n, k)
  {
    hide Bit, Trunc, Ring, Widened;
    if s < w {
      if k <= s {
        NarrowWhenRoom(w, s, n, k, r);
      } else {
        RingZero(s, n, k);
        Beyond(w, s, k, r);
      }
    }
  }

  lemma Beyond(w: nat, s: nat, k: nat, r: nat)
    requires 0 < s && 2 * s <= w && s < k && r < Pow2(w) && Periodic(w, r, s, s + k)
    ensures r < Pow2(s) <==> Trunc(s, r) == 0
  {
    hide Bit, Trunc;
    if r < Pow2(s) {
      NothingBelow(w, s, r, s, s + k, s);
    } else if Trunc(s, r) == 0 {
      var j := HighOne(w, s, r);
      var x := TurnAgain(w, s, k, r, j);
      LowClear(s, r, x);
    }
  }

  lemma {:induction false} TurnAgain(w: nat, s: nat, k: nat, r: nat, j: nat) returns (x: nat)
    requires 0 < s && j < w && Bit(r, j) && Periodic(w, r, s, s + k)
    ensures x < s && Bit(r, x)
  {
    hide Bit;
    x := j;
    if j >= s {
      x := TurnAgain(w, s, k, r, j - s);
    }
  }

  lemma RingZero(m: nat, v: nat, k: nat)
    requires m > 0 && v < Pow2(m)
    ensures Ring(m, v, k) == 0 <==> v == 0
  {
    RingOfZero(m, k);
    if Ring(m, v, k) == 0 {
      RingOfZero(m, (m - 1) * k);
      RingInjective(m, v, 0, k);
    }
  }

  lemma RingOfZero(m: nat, k: nat)
    requires m > 0
    ensures Ring(m, 0, k) == 0
  {
    assert 0 * Pow2(k) == 0;
    if Pow2(m) - 1 > 0 {
      DivModUnique(0, Pow2(m) - 1, 0, 0);
    }
  }

  method RotateRight(w: nat, n: nat, count: nat, size: OpSize) returns (r: nat, carry': bool)
    requires 0 < w && LastBitPos(w, size) < w && n < Pow2(LastBitPos(w, size) + 1)
    ensures var s := LastBitPos(w, size) + 1; r < Pow2(s) && Ring(s, r, count % 32) == n
    ensures carry' <==> count % 32 != 0 && r >= Pow2(LastBitPos(w, size))
  {
    hide *;
    var lastBitPos := LastBitPos(w, size);
    ghost var s := lastBitPos + 1;
    CountMask(count);
    r, carry' := n, false;
    RingFull(s, n, 0);
    for i := 0 to And(count, 31)
      invariant r < Pow2(s) && Ring(s, r, i) == n
      invariant carry' <==> i != 0 && r >= Pow2(lastBitPos)
    {
      RightStep(s, r);
      carry' := And(r, 1) != 0;
      r := Or(r / 2, At(carry', lastBitPos));
      RingCompose(s, r, 1, i);
    }
  }

  lemma RightStep(w: nat, n: nat)
    requires 0 < w && n < Pow2(w)
    ensures var b := And(n, 1) != 0;
            var r := Or(n / 2, At(b, w - 1));
            && r < Pow2(w) && Ring(w, r, 1) == n
            && (b <==> r >= Pow2(w - 1))
  {
    hide And, Or, Ring;
    ShiftInRight(w, n, n % 2 == 1);
    RingOne(w, n / 2 + At(n % 2 == 1, w - 1));
  }

  /** RCR by `k` undoes RCL by `k`, for every count, carry and word: whatever the two
      methods return under their contracts, the second pair is the first one's input. */
  lemma RightUndoesLeft(w: nat, n: nat, carry: bool, r: nat, c: bool, n': nat, carry': bool, k: nat)
    requires 0 < w && n < Pow2(w) && r < Pow2(w) && n' < Pow2(w)
    requires Packed(w, c, r) == Ring(w + 1, Packed(w, carry, n), k % 32)
    requires Ring(w + 1, Packed(w, carry', n'), k % 32) == Packed(w, c, r)
    ensures n' == n && carry' == carry
  {
    hide Ring;
    PackedBound(w, n, carry);
    PackedBound(w, n', carry');
    PackedBound(w, r, c);
    RingInjective(w + 1, Packed(w, carry, n), Packed(w, c, r), k % 32);
    RingInjective(w + 1, Packed(w, carry', n'), Packed(w, c, r), k % 32);
  }

  /** Two RCL in a row are one RCL by the sum, while the sum stays below 32. */
  lemma CountsAdd(w: nat, n: nat, carry: bool, j: nat, k: nat)
    requires 0 < w && n < Pow2(w) && j + k < 32
    ensures Ring(w + 1, Ring(w + 1, Packed(w, carry, n), j % 32), k % 32)
         == Ring(w + 1, Packed(w, carry, n), (j + k) % 32)
  {
    hide Ring;
    PackedBound(w, n, carry);
    RingCompose(w + 1, Packed(w, carry, n), j, k);
  }
}
