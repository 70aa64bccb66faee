/** Searching for bits: the sliding-mask scan, the power-of-two test, the parity loop
    and the bit-select tree of `src/ALU.hpp`. */
module AluScan {
  import opened Arithmetic
  import opened Bits
  import opened AluAdd

  /** The mask with ones exactly at positions lo to hi - 1. */
  function Window(lo: nat, hi: nat): nat
    requires lo <= hi
  {
    Pow2Mono(lo, hi);
    Pow2(hi) - Pow2(lo)
  }

  lemma BitWindow(lo: nat, hi: nat, i: nat)
    requires lo <= hi
    ensures Bit(Window(lo, hi), i) <==> lo <= i < hi
  {
    WindowIsShifted(lo, hi);
    BitShiftLeft(Pow2(hi - lo) - 1, lo, i);
    if i >= lo {
      BitOnes(hi - lo, i - lo);
    }
  }

  lemma WindowIsShifted(lo: nat, hi: nat)
    requires lo <= hi
    ensures Window(lo, hi) == Shl(Pow2(hi - lo) - 1, lo)
  {
    ShlMinus(Pow2(hi - lo), Pow2(0), lo);
    ShlPow2(hi - lo, lo);
    ShlPow2(0, lo);
  }

  lemma ShiftWindow(lo: nat, hi: nat, s: nat)
    requires lo <= hi
    ensures Shl(Window(lo, hi), s) == Window(lo + s, hi + s)
    ensures Shr(Window(lo + s, hi + s), s) == Window(lo, hi)
  {
    Pow2Mono(lo, hi);
    ShlMinus(Pow2(hi), Pow2(lo), s);
    ShlPow2(hi, s);
    ShlPow2(lo, s);
    ShrShl(Window(lo, hi), s);
  }

  /** Cutting a window to `w` bits. */
  lemma CutWindow(w: nat, lo: nat, hi: nat)
    requires lo <= hi && lo <= w
    ensures Trunc(w, Window(lo, hi)) == Window(lo, if hi < w then hi else w)
  {
    if hi < w {
      Pow2Mono(hi, w);
      TruncSmall(w, Window(lo, hi));
    } else {
      var k := Pow2(hi - w) - 1;
      ShlPow2(hi - w, w);
      ShlIsProduct(Pow2(hi - w), w);
      Factor(Pow2(w), k, 1);
      TruncAddMultiple(w, Window(lo, w), k);
      TruncSmall(w, Window(lo, w));
    }
  }

  /** Masking with a window that covers the top bits of `n` compares `n` with 2^lo. */
  lemma AndWindow(n: nat, lo: nat, hi: nat)
    requires lo <= hi && n < Pow2(hi)
    ensures And(n, Window(lo, hi)) != 0 <==> n >= Pow2(lo)
  {
    var m := And(n, Window(lo, hi));
    if n < Pow2(lo) {
      forall i: nat
        ensures Bit(m, i) == Bit(0, i)
      {
        BitZero(i);
        BitAnd(n, Window(lo, hi), i);
        BitWindow(lo, hi, i);
        HighBitsClear(n, lo);
      }
      Extensional(m, 0);
    } else if m == 0 {
      forall j: nat | lo <= j
        ensures !Bit(n, j)
      {
        BitAnd(n, Window(lo, hi), j);
        BitWindow(lo, hi, j);
        BitZero(j);
        HighBitsClear(n, hi);
      }
      BitsBound(n, lo);
    }
  }

  lemma FullWindow(w: nat, i: nat)
    ensures Window(0, w) == Pow2(w) - 1
    ensures Shl(0, i) == 0
  {
    ShlIsProduct(0, i);
  }

  /** Testing the upper half of the range [lo, lo + 2 s) with a mask over [lo, hi). */
  lemma ScanStep(w: nat, n: nat, lo: nat, hi: nat, s: nat)
    requires lo + 2 * s <= hi <= w && n < Pow2(lo + 2 * s)
    ensures var up := if hi + s < w then hi + s else w;
            var upper := Trunc(w, Shl(Window(lo, hi), s));
            && upper == Window(lo + s, up)
            && Shr(upper, s) == Window(lo, up - s)
            && (And(n, upper) != 0 <==> n >= Pow2(lo + s))
  {
    hide And, Shl, Shr, Trunc, Window, Pow2;
    var up := if hi + s < w then hi + s else w;
    ShiftWindow(lo, hi, s);
    CutWindow(w, lo + s, hi + s);
    Pow2Mono(lo + 2 * s, up);
    AndWindow(n, lo + s, up);
    ShiftWindow(lo, up - s, s);
  }

  /** Binary search for the top set bit of an `n` of 2^depth bits, with a mask that is
      shifted up by half the current range and shifted back when nothing is found.  Bits
      pushed out at the top never come back, so the mask is not the current range: it
      covers it. */
  method GetLastSetBitIndex(depth: nat, n: nat) returns (index: nat, isZero: bool)
    requires 0 < depth && n < Pow2(Pow2(depth))
    ensures isZero <==> n == 0
    ensures n == 0 ==> index == 0
    ensures n > 0 ==> index < Pow2(depth) && Pow2(index) <= n < Pow2(index + 1)
  {
    hide *;
    isZero := true;
    index := 0;
    var w := Pow2(depth);
    var mask := Pow2(w) - 1;
    ghost var lo, hi := 0, w;
    FullWindow(w, depth);
    for i := depth downto 0
      invariant lo == Shl(index, i)
      invariant lo + Pow2(i) <= hi <= w
      invariant mask == Window(lo, hi)
      invariant n < Pow2(lo + Pow2(i))
      invariant isZero <==> index == 0
      invariant index > 0 ==> n >= Pow2(lo)
    {
      var s := Pow2(i);
      IndexStep(index, i);
      ScanStep(w, n, lo, hi, s);
      mask := Trunc(w, Shl(mask, s));
      index := Shl(index, 1);
      hi := if hi + s < w then hi + s else w;
      if And(n, mask) != 0 {
        index := Or(index, 1);
        isZero := false;
        lo := lo + s;
      } else {
        mask := Shr(mask, s);
        hi := hi - s;
      }
    }
    LowestStep(index, n);
    if index == 0 {
      if And(n, 1) == 1 {
        isZero := false;
      }
    }
  }

  /** The next bit of the index, appended below. */
  lemma IndexStep(index: nat, i: nat)
    ensures Pow2(i + 1) == 2 * Pow2(i)
    ensures Shl(index, 1) == 2 * index && Or(2 * index, 1) == 2 * index + 1
    ensures Shl(2 * index, i) == Shl(index, i + 1)
    ensures Shl(2 * index + 1, i) == Shl(index, i + 1) + Pow2(i)
  {
    hide Or;
    ShlDouble(index, false, i);
    ShlDouble(index, true, i);
    OrEven(2 * index, true);
  }

  /** The range of length one that is left, and the test for n = 1. */
  lemma LowestStep(index: nat, n: nat)
    ensures Shl(index, 0) == index && Pow2(0) == 1 && Pow2(1) == 2
    ensures n < 2 ==> (And(n, 1) == 1 <==> n == 1)
  {
    AndMask(n, 0);
  }

  // ---------------------------------------------------------------- the lowest set bit

  function Minus(a: nat, b: nat): nat {
    if a < b then 0 else a - b
  }

  lemma ShrWindow(lo: nat, hi: nat, s: nat)
    requires lo <= hi && s <= hi
    ensures Shr(Window(lo, hi), s) == Window(Minus(lo, s), hi - s)
  {
    hide Shr, Window, Bit;
    forall j: nat
      ensures Bit(Shr(Window(lo, hi), s), j) == Bit(Window(Minus(lo, s), hi - s), j)
    {
      BitShiftRight(Window(lo, hi), s, j);
      BitWindow(lo, hi, j + s);
      BitWindow(Minus(lo, s), hi - s, j);
    }
    Extensional(Shr(Window(lo, hi), s), Window(Minus(lo, s), hi - s));
  }

  /** Where the low bits are known to be zero, the mask may cover some of them. */
  lemma AndWindowAbove(n: nat, m: nat, lo: nat, hi: nat)
    requires m <= lo <= hi && Trunc(lo, n) == 0
    ensures And(n, Window(m, hi)) != 0 <==> Trunc(hi, n) > 0
  {
    hide And, Window, Bit, Trunc, Pow2;
    var t := Trunc(hi, n);
    forall j: nat
      ensures Bit(And(n, Window(m, hi)), j) == Bit(And(t, Window(m, hi)), j)
    {
      BitAnd(n, Window(m, hi), j);
      BitAnd(t, Window(m, hi), j);
      BitWindow(m, hi, j);
      BitOfTrunc(hi, n, j);
    }
    Extensional(And(n, Window(m, hi)), And(t, Window(m, hi)));
    AndWindow(t, m, hi);
    Pow2Mono(m, lo);
    TruncTrunc(lo, hi, n);
    if 0 < t < Pow2(m) {
      TruncSmall(lo, t);
    }
  }

  /** The state of the search before step `i - 1`: there are no ones below lo, the mask covers the
      2^i places from lo on, and a one has been seen there unless they are the topmost ones. */
  ghost predicate Searching(w: nat, n: nat, i: nat, index: nat, m: nat, mask: nat, isZero: bool) {
    var lo := Shl(index, i);
    && m <= lo && lo + Pow2(i) <= w && mask == Window(m, lo + Pow2(i))
    && Trunc(lo, n) == 0
    && (if isZero then lo + Pow2(i) == w else Trunc(lo + Pow2(i), n) > 0)
  }

  lemma SearchStep(w: nat, n: nat, i: nat, index: nat, m: nat, mask: nat, isZero: bool)
    requires Searching(w, n, i + 1, index, m, mask, isZero)
    ensures var s := Pow2(i);
            var lower := Shr(mask, s);
            if And(n, lower) == 0
            then Searching(w, n, i, Or(Shl(index, 1), 1), Minus(m, s) + s, Trunc(w, Shl(lower, s)), isZero)
            else Searching(w, n, i, Shl(index, 1), Minus(m, s), lower, false)
  {
    hide And, Or, Shl, Shr, Trunc, Window;
    IndexStep(index, i);
    var s, lo := Pow2(i), Shl(index, i + 1);
    ShrWindow(m, lo + 2 * s, s);
    AndWindowAbove(n, Minus(m, s), lo, lo + s);
    ShiftWindow(Minus(m, s), lo + s, s);
    CutWindow(w, Minus(m, s) + s, lo + 2 * s);
  }

  /** When one place is left. */
  lemma SearchEnd(w: nat, n: nat, index: nat, m: nat, mask: nat, isZero: bool)
    requires n < Pow2(w) && Searching(w, n, 0, index, m, mask, isZero)
    ensures index < w && n % Pow2(index) == 0
    ensures index != w - 1 ==> !isZero && n > 0 && Bit(n, index)
    ensures index == w - 1 ==> (And(n, mask) == 0 <==> n == 0)
    ensures index == w - 1 && n > 0 ==> Bit(n, index)
    ensures n == 0 ==> isZero
  {
    hide And, Window, Bit, Pow2;
    LowestStep(index, n);
    AndWindowAbove(n, m, index, index + 1);
    LowBits(n, index);
    TruncSmall(w, n);
    if n == 0 {
      TruncSmall(index + 1, 0);
    }
  }

  /** The loop starts at `sizeof(N) + 1`: the right place for 8 and 16 bits, where the search finds the
      lowest one.  For 32 bits the first step shifts the whole mask out, and the answer is 63, and
      zero, whatever `n` is. */
  method GetFirstSetBitIndex(depth: nat, n: nat) returns (index: nat, isZero: bool)
    requires 3 <= depth <= 5 && n < Pow2(Pow2(depth))
    ensures depth < 5 ==> (isZero <==> n == 0) && (n == 0 ==> index == 0)
    ensures depth < 5 && n > 0 ==> index < Pow2(depth) && Bit(n, index) && n % Pow2(index) == 0
    ensures depth == 5 ==> index == 63 && isZero
  {
    hide *;
    isZero := true;
    index := 0;
    var w, sizeOf := Pow2(depth), Pow2(depth - 3);
    var mask: nat := Pow2(w) - 1;
    ghost var m: nat := 0;
    SearchBounds(depth, n);
    for i := sizeOf + 2 downto 0
      invariant depth < 5 ==> Searching(w, n, i, index, m, mask, isZero)
      invariant depth == 5 && i == 6 ==> mask == Window(0, 32) && index == 0 && isZero
      invariant depth == 5 && i < 6 ==> mask == 0 && index == Pow2(6 - i) - 1 && isZero
    {
      var s := Pow2(i);
      if depth < 5 {
        SearchStep(w, n, i, index, m, mask, isZero);
      } else {
        MaskLost(n, mask, i, index);
      }
      mask := Shr(mask, s);
      index := Shl(index, 1);
      m := Minus(m, s);
      if And(n, mask) == 0 {
        mask := Trunc(w, Shl(mask, s));
        index := Or(index, 1);
        m := m + s;
      } else {
        isZero := false;
      }
    }
    if depth < 5 {
      SearchEnd(w, n, index, m, mask, isZero);
    }
    if index == w - 1 {
      if And(n, mask) == 0 {
        index := 0;
      } else {
        isZero := false;
      }
    }
  }

  lemma SearchBounds(depth: nat, n: nat)
    requires 3 <= depth <= 5
    ensures depth < 5 ==> Pow2(depth - 3) + 2 == depth
    ensures depth == 5 ==> Pow2(depth - 3) == 4 && Pow2(depth) == 32
    ensures Pow2(6) == 64
    ensures depth < 5 ==> Searching(Pow2(depth), n, depth, 0, 0, Pow2(Pow2(depth)) - 1, true)
    ensures Window(0, 32) == Pow2(32) - 1
  {
    assert Pow2(2) == 4 && Pow2(5) == 32 && Pow2(6) == 64;
    FullWindow(Pow2(depth), depth);
    FullWindow(32, 0);
  }

  /** At 32 bits: a shift by all bits clears the mask, and an empty mask finds nothing. */
  lemma MaskLost(n: nat, mask: nat, i: nat, index: nat)
    requires i <= 5
    requires if i == 5 then mask == Window(0, 32) && index == 0 else mask == 0 && index == Pow2(5 - i) - 1
    ensures Shr(mask, Pow2(i)) == 0 && And(n, 0) == 0 && Trunc(32, Shl(0, Pow2(i))) == 0
    ensures Or(Shl(index, 1), 1) == Pow2(6 - i) - 1
  {
    hide And, Or, Window, Trunc;
    assert Pow2(5) == 32;
    FullWindow(0, Pow2(i));
    if i == 5 {
      ShrWindow(0, 32, 32);
    } else {
      ShrShl(0, Pow2(i));
    }
    AndZero(n);
    TruncSmall(32, 0);
    IndexStep(index, 0);
  }

  // ---------------------------------------------------------------- counting bits

  /** The number of ones among the low `i` bits. */
  function Ones(n: nat, i: nat): nat {
    if i == 0 then 0 else Ones(n, i - 1) + Num(Bit(n, i - 1))
  }

  lemma {:induction false} OnesOfZero(i: nat)
    ensures Ones(0, i) == 0
  {
    if i > 0 {
      OnesOfZero(i - 1);
      BitZero(i - 1);
    }
  }

  /** One more one counts one more: for two numbers that differ at one place only. */
  lemma {:induction false} OnesDiffer(n: nat, m: nat, i: nat, j: nat)
    requires Bit(n, j) && !Bit(m, j) && forall k: nat :: k < i && k != j ==> Bit(n, k) == Bit(m, k)
    ensures Ones(n, i) == Ones(m, i) + (if j < i then 1 else 0)
  {
    hide Bit;
    if i > 0 {
      OnesDiffer(n, m, i - 1, j);
      assert i - 1 != j ==> Bit(n, i - 1) == Bit(m, i - 1);
    }
  }

  method CheckParity(w: nat, n: nat) returns (even: bool)
    requires 0 < w
    ensures even <==> Ones(n, w) % 2 == 0
  {
    hide And, Trunc;
    var res, mask := false, 1;
    for i := 0 to w
      invariant mask == At(i < w, i)
      invariant res <==> Ones(n, i) % 2 == 1
    {
      AndMask(n, i);
      var isSet := And(n, mask) != 0;
      assert isSet == Bit(n, i);
      res := res != isSet;
      MaskShift(w, i);
      mask := Trunc(w, mask * 2);
    }
    even := !res;
  }

  method CheckPowerOf2(w: nat, n: nat) returns (b: bool)
    requires 0 < w && n < Pow2(w)
    ensures b <==> exists k: nat :: n == Pow2(k)
  {
    var encountered, mask := false, 1;
    ghost var at := 0;
    for i := 0 to w
      invariant mask == At(i < w, i)
      invariant encountered ==> at < i && Bit(n, at) && Trunc(i, n) == Pow2(at)
      invariant !encountered ==> Trunc(i, n) == 0
    {
      AndMask(n, i);
      LowBits(n, i);
      if And(mask, n) != 0 {
        if encountered {
          TwoBitsSet(n, at, i);
          return false;
        }
        encountered, at := true, i;
      }
      MaskShift(w, i);
      mask := Trunc(w, mask * 2);
    }
    TruncSmall(w, n);
    return encountered;
  }

  lemma TwoBitsSet(n: nat, i: nat, j: nat)
    requires i < j && Bit(n, i) && Bit(n, j)
    ensures forall k: nat :: n != Pow2(k)
  {
    forall k: nat
      ensures n != Pow2(k)
    {
      BitPow2(k, i);
      BitPow2(k, j);
    }
  }

  // ---------------------------------------------------------------- the bit-select tree

  /** A window inside another one is what their intersection leaves. */
  lemma Narrow(lo: nat, hi: nat, lo': nat, hi': nat)
    requires lo <= lo' <= hi' <= hi
    ensures And(Window(lo, hi), Window(lo', hi')) == Window(lo', hi')
  {
    forall i: nat
      ensures Bit(And(Window(lo, hi), Window(lo', hi')), i) == Bit(Window(lo', hi'), i)
    {
      BitAnd(Window(lo, hi), Window(lo', hi'), i);
      BitWindow(lo, hi, i);
      BitWindow(lo', hi', i);
    }
    Extensional(And(Window(lo, hi), Window(lo', hi')), Window(lo', hi'));
  }

  /** The constants of the five levels. */
  function LevelMask(i: nat): nat {
    match i
    case 0 => 0x0001
    case 1 => 0x0003
    case 2 => 0x000F
    case 3 => 0x00FF
    case _ => 0xFFFF
  }

  lemma LevelWindow(i: nat, offset: nat)
    requires i <= 4
    ensures Shl(LevelMask(i), offset) == Window(offset, offset + Pow2(i))
  {
    LevelOnes(i);
    WindowIsShifted(offset, offset + Pow2(i));
  }

  lemma LevelOnes(i: nat)
    requires i <= 4
    ensures LevelMask(i) == Pow2(Pow2(i)) - 1
  {
    if i == 4 {
      assert Pow2(4) == 16;
      Pow2Add(8, 8);
    } else {
      assert Pow2(2) == 4 && Pow2(3) == 8;
    }
    assert Pow2(4) == 16 && Pow2(8) == 256;
  }

  lemma SelectStep(pos: nat, i: nat, offset: nat)
    requires i <= 4
    ensures var o := if And(pos, Pow2(i)) != 0 then offset + Pow2(i) else offset;
            && o == offset + Trunc(i + 1, pos) - Trunc(i, pos)
            && And(Window(offset, offset + Pow2(i + 1)), Shl(LevelMask(i), o)) == Window(o, o + Pow2(i))
  {
    AndMask(pos, i);
    LowBits(pos, i);
    var o := if And(pos, Pow2(i)) != 0 then offset + Pow2(i) else offset;
    LevelWindow(i, o);
    Narrow(offset, offset + Pow2(i + 1), o, o + Pow2(i));
  }

  lemma OneBitWindow(offset: nat)
    ensures Window(offset, offset + Pow2(0)) == Pow2(offset)
  {
  }

  /** The five levels of the tree: each keeps the half that the next bit of `pos` picks. */
  method SelectMask(pos: nat) returns (bitMask: nat)
    ensures bitMask == Pow2(pos % 32)
  {
    hide And, Trunc, Window, Shl, LevelMask;
    bitMask := 0xFFFF_FFFF;
    var offset: nat := 0;
    var levels: nat := 5;
    FullMask(pos, levels);
    for i: nat := levels downto 0
      invariant offset + Trunc(i, pos) == pos % 32
      invariant bitMask == Window(offset, offset + Pow2(i))
    {
      SelectStep(pos, i, offset);
      if And(pos, Pow2(i)) != 0 {
        offset := offset + Pow2(i);
      }
      bitMask := And(bitMask, Shl(LevelMask(i), offset));
    }
    OneBitWindow(offset);
  }

  lemma FullMask(pos: nat, levels: nat)
    requires levels == 5
    ensures Trunc(levels, pos) == pos % 32 && Trunc(0, pos) == 0
    ensures 0xFFFF_FFFF == Window(0, Pow2(levels))
  {
    assert Pow2(5) == 32;
    assert Pow2(8) == 0x100;
    Pow2Add(8, 8);
    Pow2Add(16, 16);
  }

  /** `n & ~(1 << p)` */
  lemma SelectedBit(n: nat, p: nat, j: nat)
    requires n < Pow2(32) && p < 32
    ensures Pow2(p) < Pow2(32)
    ensures Bit(And(n, Pow2(32) - 1 - Pow2(p)), j) == (j != p && Bit(n, j))
  {
    hide And, Bit, Pow2;
    Pow2Mono(p, 32);
    BitAnd(n, Pow2(32) - 1 - Pow2(p), j);
    if j < 32 {
      ComplementBit(32, Pow2(p), j);
      BitPow2(p, j);
    } else {
      HighBitsClear(n, 32);
    }
  }

  lemma UpdatedBits(n: nat, p: nat, val: bool)
    requires n < Pow2(32) && p < 32
    ensures Pow2(p) < Pow2(32)
    ensures var cleared := And(n, Pow2(32) - 1 - Pow2(p));
            var n' := if val then Or(cleared, Pow2(p)) else cleared;
            forall j: nat :: Bit(n', j) == if j == p then val else Bit(n, j)
  {
    hide And, Or, Bit;
    Pow2Mono(p, 32);
    var cleared := And(n, Pow2(32) - 1 - Pow2(p));
    forall j: nat
      ensures Bit(cleared, j) == (j != p && Bit(n, j))
      ensures Bit(Or(cleared, Pow2(p)), j) == (j == p || Bit(n, j))
    {
      SelectedBit(n, p, j);
      BitOr(cleared, Pow2(p), j);
      BitPow2(p, j);
    }
  }

  /** Reads the bit at `pos` mod 32 of a word, and sets it to `val` unless `noSet` is
      given.  The other bits stay. */
  method GetAndSetBitAt(n: nat, pos: nat, val: bool, noSet: bool) returns (n': nat, isBitSet: bool)
    requires n < Pow2(32)
    ensures isBitSet <==> Bit(n, pos % 32)
    ensures noSet ==> n' == n
    ensures !noSet ==> forall j: nat :: Bit(n', j) == if j == pos % 32 then val else Bit(n, j)
  {
    hide And, Or, Bit, Pow2;
    var bitMask := SelectMask(pos);
    AndMask(n, pos % 32);
    UpdatedBits(n, pos % 32, val);
    isBitSet := And(n, bitMask) != 0;
    n' := n;
    if !noSet {
      n' := And(n', Pow2(32) - 1 - bitMask);
      if val {
        n' := Or(n', bitMask);
      }
    }
  }
}
