/** `sign_extend` of `src/ALU.hpp`, which takes the sign from the middle of the operand. */
module AluExtend {
  import opened Arithmetic
  import opened Bits
  import opened AluAdd
  import opened AluScan
  import opened DataTypes

  /** Bit `half` is copied to all higher places if it is set; otherwise they stay. */
  function Extended(w: nat, n: nat, half: nat): (r: nat)
    requires half < w && n < Pow2(w)
    ensures r < Pow2(w)
  {
    Pow2Mono(half + 1, w);
    if Bit(n, half) then Pow2(w) - Pow2(half + 1) + Trunc(half + 1, n) else n
  }

  /** One more copied bit. */
  lemma FillStep(n: nat, lo: nat, k: nat)
    requires lo <= k
    ensures Or(Or(n, Window(lo, k)), Pow2(k)) == Or(n, Window(lo, k + 1))
  {
    hide Or, Window, Bit;
    var l, r := Or(Or(n, Window(lo, k)), Pow2(k)), Or(n, Window(lo, k + 1));
    forall j: nat
      ensures Bit(l, j) == Bit(r, j)
    {
      BitOr(Or(n, Window(lo, k)), Pow2(k), j);
      BitOr(n, Window(lo, k), j);
      BitOr(n, Window(lo, k + 1), j);
      BitWindow(lo, k, j);
      BitWindow(lo, k + 1, j);
      BitPow2(k, j);
    }
    Extensional(l, r);
  }

  /** All places from `lo` on copied. */
  lemma Filled(w: nat, n: nat, lo: nat)
    requires lo <= w && n < Pow2(w)
    ensures Or(n, Window(lo, w)) == Window(lo, w) + Trunc(lo, n)
  {
    hide Or, Window, Bit, Trunc;
    var ones := Pow2(w - lo) - 1;
    WindowIsShifted(lo, w);
    OrShifted(ones, Trunc(lo, n), lo);
    var l, r := Or(n, Window(lo, w)), Or(Window(lo, w), Trunc(lo, n));
    forall j: nat
      ensures Bit(l, j) == Bit(r, j)
    {
      BitOr(n, Window(lo, w), j);
      BitOr(Window(lo, w), Trunc(lo, n), j);
      BitWindow(lo, w, j);
      BitOfTrunc(lo, n, j);
      HighBitsClear(n, w);
    }
    Extensional(l, r);
  }

  lemma NothingFilled(n: nat, lo: nat)
    ensures Or(n, Window(lo, lo)) == n
  {
    OrZero(n);
  }

  lemma WindowToTheTop(w: nat, n: nat, half: nat)
    requires half < w && n < Pow2(w)
    ensures Bit(n, half) ==> Extended(w, n, half) == Window(half + 1, w) + Trunc(half + 1, n)
    ensures !Bit(n, half) ==> Extended(w, n, half) == n
  {
  }

  lemma ExtendedBySize(w: nat, n: nat, size: OpSize)
    requires 1 < w && n < Pow2(w) && HalfBitPos(w, size) < w && size != UNKNOWN
    ensures var half := HalfBitPos(w, size);
            var p := if size == B then 0x10 else if size == W then 0x100 else 0x1_0000;
            Extended(w, n, half) == if Bit(n, half) then Pow2(w) - p + n % p else n
  {
    hide Bit;
    assert Pow2(4) == 0x10 && Pow2(8) == 0x100;
    Pow2Add(8, 8);
  }

  method SignExtend(w: nat, n: nat, prevSize: OpSize) returns (out: nat)
    requires 1 < w && n < Pow2(w) && HalfBitPos(w, prevSize) < w
    ensures out == Extended(w, n, HalfBitPos(w, prevSize))
    ensures prevSize == B ==>
      out == if Bit(n, 3) then Pow2(w) - 0x10 + n % 0x10 else n
    ensures prevSize == W ==>
      out == if Bit(n, 7) then Pow2(w) - 0x100 + n % 0x100 else n
    ensures prevSize == DW ==>
      out == if Bit(n, 15) then Pow2(w) - 0x1_0000 + n % 0x1_0000 else n
  {
    hide And, Or, Bit, Trunc, Window, Pow2, Extended;
    if prevSize != UNKNOWN {
      ExtendedBySize(w, n, prevSize);
    }
    var halfBitPos := HalfBitPos(w, prevSize);
    ghost var lo := halfBitPos + 1;
    var mask := Pow2(halfBitPos);
    AndMask(n, halfBitPos);
    WindowToTheTop(w, n, halfBitPos);
    var fill := And(n, mask) != 0;
    MaskShift(w, halfBitPos);
    mask := Trunc(w, mask * 2);
    out := n;
    if fill {
      NothingFilled(n, lo);
      for i := 0 to w
        invariant mask == At(lo + i < w, lo + i)
        invariant out == Or(n, Window(lo, if lo + i < w then lo + i else w))
      {
        if lo + i < w {
          FillStep(n, lo, lo + i);
          MaskShift(w, lo + i);
        } else {
          OrZero(out);
          TruncSmall(w, 0);
        }
        out := Or(out, mask);
        mask := Trunc(w, mask * 2);
      }
      Filled(w, n, lo);
    }
  }

  /** Exactly which operands of `s` bits are extended as signed numbers: those whose upper part is all
      copies of the bit in the middle, or those without it that are non-negative or have the full
      width already.  For s = half + 1, the bit is the sign, these are all. */
  lemma ExtendedIsSigned(w: nat, s: nat, n: nat, half: nat)
    requires half + 1 <= s <= w && half < w && n < Pow2(s)
    ensures n < Pow2(w)
    ensures Extended(w, n, half) == Trunc(w, Signed(s, n)) <==>
      if Bit(n, half) then n >= Pow2(s) - Pow2(half + 1) else n < Pow2(s - 1) || s == w
    ensures s == half + 1 ==> Extended(w, n, half) == Trunc(w, Signed(s, n))
  {
    hide Bit, Pow2;
    Pow2Mono(s, w);
    Pow2Mono(half + 1, s);
    NextColumn(s - 1);
    TruncSmall(w, n);
    if n >= Pow2(s - 1) {
      TruncAddMultiple(w, n - Pow2(s), 1);
      TruncSmall(w, n - Pow2(s) + Pow2(w));
    }
    TopPart(n, half + 1, s);
    if s == half + 1 {
      SignBit(s, n);
    }
  }

  /** The low bits of a word that is within one unit of the top. */
  lemma TopPart(n: nat, k: nat, s: nat)
    requires k <= s && n < Pow2(s)
    ensures n >= Pow2(s) - Pow2(k) <==> n - Trunc(k, n) == Pow2(s) - Pow2(k)
  {
    hide Pow2;
    Pow2Add(s - k, k);
    TopMultiple(n, Pow2(k), Pow2(s - k));
  }

  lemma TopMultiple(n: nat, p: nat, q: nat)
    requires p > 0 && n < q * p
    ensures n >= q * p - p <==> n - n % p == q * p - p
  {
    var m := (q - 1) * p;
    assert m == q * p - p;
    if n >= m {
      DivModUnique(n, p, q - 1, n - m);
    }
  }
}
