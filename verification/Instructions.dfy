/** The arithmetic instructions: their effect on the operands and the flags, and what chains and
    pairs of them compute. */
module Instructions {
  import opened Arithmetic
  import opened Bits
  import opened Wrappers
  import opened AluAdd
  import opened AluDivide
  import opened AluExtend
  import opened AluOverflow
  import opened AluScan
  import opened DataTypes
  import opened Flags

  // ---------------------------------------------------------------- addition and subtraction

  method ExecAdd(op1: nat, size1: OpSize, op2: nat, size2: OpSize, flags: Eflags) returns (ret: nat)
    requires flags.value < Pow2(32) && op1 < Pow2(32) && op2 < Pow2(32)
    modifies flags
    ensures flags.value < Pow2(32)
    ensures ret == (op1 + op2) % 0x1_0000_0000
    ensures Bit(flags.value, 0) <==> op1 + op2 >= 0x1_0000_0000
    ensures Bit(flags.value, 2) <==> Ones(ret % 0x100, 8) % 2 == 0
    ensures Bit(flags.value, 4) <==> op1 % 16 + op2 % 16 >= 16
    ensures Bit(flags.value, 6) <==> ret == 0
    ensures Bit(flags.value, 7) <==> Bit(ret, LastBitPos(32, size1))
    ensures
      var neg1, neg2 := Bit(op1, LastBitPos(32, size1)), Bit(op2, LastBitPos(32, size2));
      Bit(flags.value, 11) <==> neg1 == neg2 && Bit(ret, LastBitPos(32, size1)) != neg1
    ensures
      var w := 8 * Width(size1);
      size1 == size2 != UNKNOWN && op1 < Pow2(w) && op2 < Pow2(w) ==>
        (Bit(flags.value, 11) <==> !FitsSigned(w, Signed(w, op1) + Signed(w, op2)))
    ensures forall j: nat :: j !in {0, 2, 4, 6, 7, 11} ==> Bit(flags.value, j) == Bit(old(flags.value), j)
    ensures (ret, flags.value) == AddEffect(old(flags.value), op1, size1, op2, size2, false)
  {
    hide StatusFlags, Pow2, Bit, Ones, Signed, FitsSigned;
    AddEffectFlags(flags.value, op1, size1, op2, size2, false);
    if size1 == size2 != UNKNOWN && op1 < Pow2(8 * Width(size1)) && op2 < Pow2(8 * Width(size1)) {
      AddEffectOverflow(flags.value, size1, op1, op2, false);
    }
    var carry;
    ret, carry := Add(32, op1, op2, false);
    SumAndCarry(op1, op2, false, ret, carry);
    flags.UpdateStatusFlags(op1, op2, ret, size1, size2, size1, carry, false);
  }

  method ExecAdc(op1: nat, size1: OpSize, op2: nat, size2: OpSize, flags: Eflags) returns (ret: nat)
    requires flags.value < Pow2(32) && op1 < Pow2(32) && op2 < Pow2(32)
    modifies flags
    ensures flags.value < Pow2(32)
    ensures ret == (op1 + op2 + Num(Bit(old(flags.value), 0))) % 0x1_0000_0000
    ensures Bit(flags.value, 0) <==> op1 + op2 + Num(Bit(old(flags.value), 0)) >= 0x1_0000_0000
    ensures Bit(flags.value, 2) <==> Ones(ret % 0x100, 8) % 2 == 0
    ensures Bit(flags.value, 4) <==> op1 % 16 + op2 % 16 >= 16
    ensures Bit(flags.value, 6) <==> ret == 0
    ensures Bit(flags.value, 7) <==> Bit(ret, LastBitPos(32, size1))
    ensures
      var neg1, neg2 := Bit(op1, LastBitPos(32, size1)), Bit(op2, LastBitPos(32, size2));
      Bit(flags.value, 11) <==> neg1 == neg2 && Bit(ret, LastBitPos(32, size1)) != neg1
    ensures
      var w := 8 * Width(size1);
      size1 == size2 != UNKNOWN && op1 < Pow2(w) && op2 < Pow2(w) ==>
        (Bit(flags.value, 11) <==> !FitsSigned(w, Signed(w, op1) + Signed(w, op2) + Num(Bit(old(flags.value), 0))))
    ensures forall j: nat :: j !in {0, 2, 4, 6, 7, 11} ==> Bit(flags.value, j) == Bit(old(flags.value), j)
    ensures (ret, flags.value) == AddEffect(old(flags.value), op1, size1, op2, size2, Bit(old(flags.value), CF))
  {
    hide StatusFlags, Pow2, Bit, Get, Ones, Signed, FitsSigned;
    GetFlag(flags.value, CF);
    var carry := Get(flags.value, Pow2(CF));
    ghost var carryIn := carry;
    AddEffectFlags(flags.value, op1, size1, op2, size2, carryIn);
    if size1 == size2 != UNKNOWN && op1 < Pow2(8 * Width(size1)) && op2 < Pow2(8 * Width(size1)) {
      AddEffectOverflow(flags.value, size1, op1, op2, carryIn);
    }
    ret, carry := Add(32, op1, op2, carry);
    SumAndCarry(op1, op2, carryIn, ret, carry);
    flags.UpdateStatusFlags(op1, op2, ret, size1, size2, size1, carry, false);
  }

  /** The result and the flags of an addition, in arithmetic.  The sum is cut to 32 bits at all sizes. */
  function AddEffect(flags: nat, a: nat, size1: OpSize, b: nat, size2: OpSize, carryIn: bool): (nat, nat) {
    var sum := a + b + Num(carryIn);
    var r := sum % WORDS;
    (r, StatusFlags(flags, Computed(a, size1, b, size2, r, size1, sum >= WORDS, false)))
  }

  /** What carry and overflow flag say about the operands and the sum. */
  lemma AddEffectFlags(flags: nat, a: nat, size1: OpSize, b: nat, size2: OpSize, carryIn: bool)
    requires flags < Pow2(32) && a < Pow2(32) && b < Pow2(32)
    ensures var (r, v) := AddEffect(flags, a, size1, b, size2, carryIn);
            var neg1, neg2 := Bit(a, LastBitPos(32, size1)), Bit(b, LastBitPos(32, size2));
            && r == (a + b + Num(carryIn)) % 0x1_0000_0000
            && (Bit(v, 0) <==> a + b + Num(carryIn) >= 0x1_0000_0000)
            && (Bit(v, 11) <==> neg1 == neg2 && Bit(r, LastBitPos(32, size1)) != neg1)
  {
    hide StatusFlags, Bit, Ones, Pow2, LastBitPos;
    var sum := a + b + Num(carryIn);
    StatusFlagsMeaning(flags, Computed(a, size1, b, size2, sum % WORDS, size1, sum >= WORDS, false));
  }

  lemma AddEffectOverflow(flags: nat, size: OpSize, a: nat, b: nat, carryIn: bool)
    requires flags < Pow2(32) && size != UNKNOWN
    requires a < Pow2(8 * Width(size)) && b < Pow2(8 * Width(size))
    ensures var w := 8 * Width(size);
            Bit(AddEffect(flags, a, size, b, size, carryIn).1, 11) <==>
              !FitsSigned(w, Signed(w, a) + Signed(w, b) + Num(carryIn))
  {
    hide StatusFlags, Bit, Signed, FitsSigned, Pow2, Trunc;
    Word32();
    WordTrunc(a + b + Num(carryIn));
    AddFlags(flags, size, a, b, carryIn);
  }

  lemma SumAndCarry(a: nat, b: nat, carryIn: bool, r: nat, carry: bool)
    requires r < Pow2(32) && r + At(carry, 32) == a + b + Num(carryIn)
    ensures r == (a + b + Num(carryIn)) % WORDS
    ensures carry <==> a + b + Num(carryIn) >= WORDS
  {
    Word32();
  }

  /** The second operand of SUB: sign-extended when the sizes differ, at any sizes. */
  function SecondOperand(op2: nat, size1: OpSize, size2: OpSize): (r: nat)
    requires op2 < Pow2(32)
    ensures r < Pow2(32)
  {
    if size1 != size2 then Extended(32, op2, HalfBitPos(32, size2)) else op2
  }

  method ExecSub(op1: nat, size1: OpSize, op2: nat, size2: OpSize, flags: Eflags) returns (ret: nat)
    requires flags.value < Pow2(32) && op1 < Pow2(32) && op2 < Pow2(32)
    modifies flags
    ensures flags.value < Pow2(32)
    ensures ret == Sub32(op1, SecondOperand(op2, size1, size2))
    ensures flags.value == StatusFlags(old(flags.value), Subtracted(op1, SecondOperand(op2, size1, size2), size1))
    ensures Bit(flags.value, 0) <==> Bit(old(flags.value), 0) || op1 < SecondOperand(op2, size1, size2)
    ensures Bit(flags.value, 2) <==> Ones(ret % 0x100, 8) % 2 == 0
    ensures Bit(flags.value, 4) <==> op1 % 16 < SecondOperand(op2, size1, size2) % 16
    ensures Bit(flags.value, 6) <==> ret == 0
    ensures Bit(flags.value, 7) <==> Bit(ret, LastBitPos(32, size1))
    ensures forall j: nat :: j !in {0, 2, 4, 6, 7, 11} ==> Bit(flags.value, j) == Bit(old(flags.value), j)
  {
    hide SetTo, FourFlags, Adjust, Pow2, Extended, Bit, Ones;
    var op2Size, operand2 := size2, op2;
    if size1 != op2Size {
      operand2 := SignExtend(32, op2, op2Size);
      op2Size := size1;
    }
    var carry;
    ret, carry := Sub(32, op1, 32, operand2, false);
    SameFourFlags(flags.value, op1, operand2, size1, ret, carry);
    flags.UpdateStatusFlags(op1, operand2, ret, size1, op2Size, size1, carry, true);
  }

  /** The carry of the subtraction is not used for the flags. */
  lemma SameFourFlags(value: nat, a: nat, b: nat, size: OpSize, r: nat, carry: bool)
    requires r == Sub32(a, b)
    ensures FourFlags(value, Computed(a, size, b, size, r, size, carry, true))
         == FourFlags(value, Subtracted(a, b, size))
  {
    hide SetTo;
  }

  /** Exactly when SUB of operands of different sizes subtracts the second one as a signed number: its
      sign is taken from the middle, so the upper half has to be all copies of that bit, or without
      it the operand is non-negative or has 32 bits already. */
  lemma SubtractsSigned(op1: nat, size1: OpSize, op2: nat, size2: OpSize)
    requires op1 < Pow2(32) && size1 != size2 && size2 != UNKNOWN && op2 < Pow2(8 * Width(size2))
    ensures op2 < Pow2(32)
    ensures var (s, half) := if size2 == DW then (32, 15) else if size2 == W then (16, 7) else (8, 3);
            Sub32(op1, SecondOperand(op2, size1, size2)) == Trunc(32, op1 - Signed(s, op2)) <==>
              if Bit(op2, half) then op2 >= Pow2(s) - Pow2(half + 1) else op2 < Pow2(s - 1) || size2 == DW
  {
    hide Pow2, Extended, Bit, Signed, Trunc;
    var s := 8 * Width(size2);
    ExtendedIsSigned(32, s, op2, HalfBitPos(32, size2));
    var e, y := SecondOperand(op2, size1, size2), Signed(s, op2);
    TruncDifference(op1, y);
    if e < Trunc(32, y) {
      TruncDiffers(32, op1 - Trunc(32, y), Trunc(32, y) - e);
    } else if e > Trunc(32, y) {
      TruncDiffers(32, op1 - e, e - Trunc(32, y));
    }
  }

  /** The byte 8 is subtracted as -8. */
  lemma SubtractsEightAsNegative(a: nat)
    requires a < Pow2(32)
    ensures 8 < Pow2(32) && Sub32(a, SecondOperand(8, DW, B)) != Trunc(32, a - 8)
  {
    Word32();
    assert Bit(8, 3);
    assert Pow2(7) == 128;
    hide Pow2, Bit, Trunc;
    SubtractsSigned(a, DW, 8, B);
  }

  lemma TruncDifference(x: nat, y: int)
    ensures Trunc(32, x - Trunc(32, y)) == Trunc(32, x - y)
  {
    hide Pow2;
    var p := Pow2(32);
    assert x - y % p == x - y + (y / p) * p;
    TruncAddMultiple(32, x - y, y / p);
  }

  /** SETcc: the byte is the flag, or the combination of flags, that the code stands for, and its
      negation for the odd codes. */
  method ExecSetcc(code: nat, flags: Eflags) returns (ret: Option<nat>)
    ensures ret.None? <==> code > 15
    ensures code <= 1 ==> ret == Some(Num(Bit(flags.value, 11) != (code == 1)))
    ensures 2 <= code <= 3 ==> ret == Some(Num(Bit(flags.value, 0) != (code == 3)))
    ensures 4 <= code <= 5 ==> ret == Some(Num(Bit(flags.value, 6) != (code == 5)))
    ensures 6 <= code <= 7 ==> ret == Some(Num((Bit(flags.value, 6) || Bit(flags.value, 0)) != (code == 7)))
    ensures 8 <= code <= 9 ==> ret == Some(Num(Bit(flags.value, 7) != (code == 9)))
    ensures 10 <= code <= 11 ==> ret == Some(Num(Bit(flags.value, 2) != (code == 11)))
    ensures 12 <= code <= 13 ==> ret == Some(Num((Bit(flags.value, 7) != Bit(flags.value, 11)) != (code == 13)))
    ensures 14 <= code <= 15 ==>
      ret == Some(Num((Bit(flags.value, 6) || Bit(flags.value, 7) != Bit(flags.value, 11)) != (code == 15)))
    ensures code <= 15 ==> Condition(code, flags.value, 0) == Some(ret == Some(1))
  {
    hide Condition, Bit;
    if code <= 15 {
      ConditionRead(code, flags.value, 0);
      ret := Some(Num(Condition(code, flags.value, 0).value));
    } else {
      ret := None;
    }
  }

  /** SUB then SETcc, on operands of one size and from flags with the carry clear: the byte written is
      the comparison that the condition names. */
  method SubThenSetcc(code: nat, size: OpSize, a: nat, b: nat, flags: Eflags) returns (r: Option<nat>)
    requires flags.value < Pow2(32) && !Bit(flags.value, CF) && size != UNKNOWN && code in COMPARISONS
    requires a < Pow2(8 * Width(size)) && b < Pow2(8 * Width(size))
    modifies flags
    ensures r == Some(Num(Compares(code, 8 * Width(size), a, b)))
  {
    hide StatusFlags, Pow2, Bit, Condition, Sub32, Compares, Subtracted;
    Pow2Mono(8 * Width(size), 32);
    SubCompares(flags.value, size, a, b, code);
    var _ := ExecSub(a, size, b, size, flags);
    r := ExecSetcc(code, flags);
  }

  // ---------------------------------------------------------------- carry chains

  /** The number of a list of 32-bit limbs, lowest first. */
  function Number(limbs: seq<nat>): nat {
    if limbs == [] then 0 else limbs[0] + WORDS * Number(limbs[1..])
  }

  function Weight(n: nat): nat {
    if n == 0 then 1 else WORDS * Weight(n - 1)
  }

  /** ADC on each pair of limbs, the carry going through the flags register. */
  function AdcChain(flags: nat, xs: seq<nat>, ys: seq<nat>): (r: (seq<nat>, nat))
    requires |xs| == |ys|
    ensures |r.0| == |xs|
    decreases |xs|
  {
    if xs == [] then ([], flags) else
    var (z, flags') := AddEffect(flags, xs[0], DW, ys[0], DW, Bit(flags, CF));
    var (zs, end) := AdcChain(flags', xs[1..], ys[1..]);
    ([z] + zs, end)
  }

  /** One ADD on the lowest limbs, then ADC on the others. */
  function AddChain(flags: nat, xs: seq<nat>, ys: seq<nat>): (r: (seq<nat>, nat))
    requires |xs| == |ys| > 0
    ensures |r.0| == |xs|
  {
    var (z, flags') := AddEffect(flags, xs[0], DW, ys[0], DW, false);
    var (zs, end) := AdcChain(flags', xs[1..], ys[1..]);
    ([z] + zs, end)
  }

  predicate AreLimbs(xs: seq<nat>) {
    forall i :: 0 <= i < |xs| ==> xs[i] < WORDS
  }

  lemma AddEffectMeaning(flags: nat, a: nat, b: nat, carryIn: bool)
    requires flags < Pow2(32) && a < WORDS && b < WORDS
    ensures var (r, flags') := AddEffect(flags, a, DW, b, DW, carryIn);
            && r < WORDS && flags' < Pow2(32)
            && r + (if Bit(flags', CF) then WORDS else 0) == a + b + Num(carryIn)
  {
    hide Bit, StatusFlags, Pow2, Trunc;
    var sum := a + b + Num(carryIn);
    StatusFlagsRead(flags, Computed(a, DW, b, DW, sum % WORDS, DW, sum >= WORDS, false), CF);
  }

  lemma {:induction false} AdcChainAdds(flags: nat, xs: seq<nat>, ys: seq<nat>)
    requires flags < Pow2(32) && |xs| == |ys| && AreLimbs(xs) && AreLimbs(ys)
    ensures var (zs, end) := AdcChain(flags, xs, ys);
            && AreLimbs(zs)
            && Number(zs) + (if Bit(end, CF) then Weight(|xs|) else 0)
               == Number(xs) + Number(ys) + Num(Bit(flags, CF))
    decreases |xs|
  {
    hide Bit, AddEffect, Pow2;
    if xs != [] {
      AddEffectMeaning(flags, xs[0], ys[0], Bit(flags, CF));
      var (z, flags') := AddEffect(flags, xs[0], DW, ys[0], DW, Bit(flags, CF));
      AdcChainAdds(flags', xs[1..], ys[1..]);
      var (zs, end) := AdcChain(flags', xs[1..], ys[1..]);
      assert ([z] + zs)[1..] == zs;
    }
  }

  /** Adding limb by limb adds the numbers, of any length and from any flags; the carry flag at
      the end is the digit above the last limb. */
  lemma AddChainAdds(flags: nat, xs: seq<nat>, ys: seq<nat>)
    requires flags < Pow2(32) && |xs| == |ys| > 0 && AreLimbs(xs) && AreLimbs(ys)
    ensures var (zs, end) := AddChain(flags, xs, ys);
            && AreLimbs(zs)
            && Number(zs) + (if Bit(end, CF) then Weight(|xs|) else 0) == Number(xs) + Number(ys)
  {
    hide Bit, AddEffect, Pow2, AdcChain;
    AddEffectMeaning(flags, xs[0], ys[0], false);
    var (z, flags') := AddEffect(flags, xs[0], DW, ys[0], DW, false);
    AdcChainAdds(flags', xs[1..], ys[1..]);
    var (zs, end) := AdcChain(flags', xs[1..], ys[1..]);
    assert ([z] + zs)[1..] == zs;
  }

  /** The chain as it is executed: ADD on the lowest limbs, ADC on the others. */
  method AddNumbers(xs: seq<nat>, ys: seq<nat>, flags: Eflags) returns (zs: seq<nat>)
    requires flags.value < Pow2(32) && |xs| == |ys| > 0 && AreLimbs(xs) && AreLimbs(ys)
    modifies flags
    ensures |zs| == |xs| && AreLimbs(zs)
    ensures Number(zs) + (if Bit(flags.value, 0) then Weight(|xs|) else 0) == Number(xs) + Number(ys)
  {
    hide Bit, AddEffect, Number, Weight, AdcChain, Pow2;
    Word32();
    ghost var chain := AddChain(flags.value, xs, ys);
    AddChainAdds(flags.value, xs, ys);
    var z := ExecAdd(xs[0], DW, ys[0], DW, flags);
    zs := [z];
    for i := 1 to |xs|
      invariant flags.value < Pow2(32) && |zs| == i
      invariant var rest := AdcChain(flags.value, xs[i..], ys[i..]); chain == (zs + rest.0, rest.1)
    {
      AdcChainStep(flags.value, xs[i..], ys[i..]);
      assert xs[i..][1..] == xs[i + 1..] && ys[i..][1..] == ys[i + 1..];
      z := ExecAdc(xs[i], DW, ys[i], DW, flags);
      ghost var rest := AdcChain(flags.value, xs[i + 1..], ys[i + 1..]);
      assert zs + ([z] + rest.0) == zs + [z] + rest.0;
      zs := zs + [z];
    }
    AdcChainStep(flags.value, xs[|xs|..], ys[|xs|..]);
    assert zs + [] == zs;
  }

  lemma AdcChainStep(flags: nat, xs: seq<nat>, ys: seq<nat>)
    requires |xs| == |ys|
    ensures xs == [] ==> AdcChain(flags, xs, ys) == ([], flags)
    ensures xs != [] ==>
      var (z, flags') := AddEffect(flags, xs[0], DW, ys[0], DW, Bit(flags, CF));
      var rest := AdcChain(flags', xs[1..], ys[1..]);
      AdcChain(flags, xs, ys) == ([z] + rest.0, rest.1)
  {
  }

  // ---------------------------------------------------------------- multiplication

  lemma Word64()
    ensures Pow2(64) == WORDS * WORDS && Pow2(63) * 2 == Pow2(64)
  {
    Word32();
    Pow2Add(32, 32);
  }

  lemma ProductFits(a: nat, b: nat)
    requires a < WORDS && b < WORDS
    ensures a * b < WORDS * WORDS
  {
    MulMono(a, b, WORDS);
    MulMono(WORDS, a, WORDS);
  }

  /** The two 32-bit halves of a 64-bit value. */
  lemma Halves(x: nat)
    requires x < Pow2(64)
    ensures Trunc(32, x) == x % WORDS && Trunc(32, Shr(x, 32)) == x / WORDS < WORDS
  {
    hide Shr, Trunc;
    Word32();
    Word64();
    ShrIsQuotient(x, 32);
    TruncSmall(32, x / WORDS);
    WordTrunc(x);
  }

  lemma WordTrunc(x: int)
    ensures Trunc(32, x) == x % WORDS
  {
    Word32();
  }

  /** The shift-add loop of 64 bits on two words of 32 bits. */
  lemma WideProduct(a: nat, b: nat)
    requires a < Pow2(32) && b < Pow2(32)
    ensures a < Pow2(64) && b < Pow2(64) && a * b < Pow2(64)
    ensures Trunc(64, a * b) == a * b && PartialSum(64, a, b, 64) < Pow2(64)
  {
    hide Trunc, PartialSum;
    Word32();
    Word64();
    ProductFits(a, b);
    TruncSmall(64, a * b);
    if PartialSum(64, a, b, 64) >= Pow2(64) {
      OverflowIsReal(64, a, b);
    }
  }

  /** `EFLAGS::CF | EFLAGS::OF` */
  function BothOverflowFlags(): (mask: nat)
    ensures mask < Pow2(32)
    ensures forall j: nat :: Bit(mask, j) <==> j == 0 || j == 11
  {
    BothFlags();
    Or(Pow2(CF), Pow2(OF))
  }

  lemma BothFlags()
    ensures Or(Pow2(CF), Pow2(OF)) < Pow2(32)
    ensures forall j: nat :: Bit(Or(Pow2(CF), Pow2(OF)), j) <==> j == 0 || j == 11
  {
    hide Or, Bit, Pow2;
    forall j: nat
      ensures Bit(Or(Pow2(CF), Pow2(OF)), j) <==> j == 0 || j == 11
    {
      BitOr(Pow2(CF), Pow2(OF), j);
      BitPow2(CF, j);
      BitPow2(OF, j);
    }
    BitsBound(Or(Pow2(CF), Pow2(OF)), 32);
  }

  /** The full unsigned product in two halves, and never an overflow. */
  method ExecMulx(op1: nat, op2: nat, flags: Eflags) returns (ret: nat, ret2: nat)
    requires flags.value < Pow2(32) && op1 < Pow2(32) && op2 < Pow2(32)
    modifies flags
    ensures ret < WORDS && ret2 < WORDS && ret2 * WORDS + ret == op1 * op2
    ensures flags.value < Pow2(32) && !Bit(flags.value, 0) && !Bit(flags.value, 11)
    ensures forall j: nat :: j != 0 && j != 11 ==> Bit(flags.value, j) == Bit(old(flags.value), j)
  {
    hide With, BothOverflowFlags, Bit, Trunc, Shr, PartialSum, Pow2;
    WideProduct(op1, op2);
    var r, overflow := Multiply(64, op1, op2, false);
    Halves(r);
    ret := Trunc(32, r);
    ret2 := Trunc(32, Shr(r, 32));
    flags.SetVal(BothOverflowFlags(), overflow);
  }

  /** The low half of the product, of the words as unsigned or as signed numbers alike. */
  method ExecImul(op1: nat, op2: nat, flags: Eflags) returns (ret: nat)
    requires flags.value < Pow2(32) && op1 < Pow2(32) && op2 < Pow2(32)
    modifies flags
    ensures ret == Trunc(32, Signed(32, op1) * Signed(32, op2))
    ensures flags.value < Pow2(32) && Bit(flags.value, 11) == Bit(flags.value, 0)
    ensures Bit(flags.value, 0) <==> PartialSum(32, op1, op2, 32) >= Pow2(32)
    ensures FitsSigned(32, Signed(32, op1) * Signed(32, op2)) ==> (Bit(flags.value, 0) <==> FalseAlarm(32, op1, op2))
    ensures forall j: nat :: j != 0 && j != 11 ==> Bit(flags.value, j) == Bit(old(flags.value), j)
  {
    hide With, BothOverflowFlags, Bit, Trunc, PartialSum, Pow2, Signed, FalseAlarm, FitsSigned;
    SignedProduct(32, op1, op2);
    SignedOverflow(32, op1, op2);
    var overflow;
    ret, overflow := Multiply(32, op1, op2, false);
    flags.SetVal(BothOverflowFlags(), overflow);
  }

  /** In 64 bits the product of two signed words always fits. */
  lemma WideFlag(op1: nat, op2: nat)
    requires op1 < Pow2(32) && op2 < Pow2(32)
    ensures var a, b := Trunc(64, Signed(32, op1)), Trunc(64, Signed(32, op2));
            PartialSum(64, a, b, 64) >= Pow2(64) <==> FalseAlarm(64, a, b)
  {
    hide PartialSum, Trunc, Signed, FalseAlarm;
    SignedRange(op1);
    SignedRange(op2);
    SameInWide(Signed(32, op1));
    SameInWide(Signed(32, op2));
    SignedProductRange(Signed(32, op1), Signed(32, op2));
    Word32();
    Word64();
    SignedOverflow(64, Trunc(64, Signed(32, op1)), Trunc(64, Signed(32, op2)));
  }

  lemma SameInWide(x: int)
    requires -0x8000_0000 <= x < 0x8000_0000
    ensures Signed(64, Trunc(64, x)) == x
  {
    hide Trunc;
    Word32();
    Word64();
    if x < 0 {
      TruncSmall(64, x + Pow2(64));
      TruncAddMultiple(64, x, 1);
    } else {
      TruncSmall(64, x);
    }
  }

  /** The high half of the signed product.  The flags do not say whether it is needed: they are set by
      signs and ones of the operands alone. */
  method ExecImulx(op1: nat, op2: nat, flags: Eflags) returns (ret: nat)
    requires flags.value < Pow2(32) && op1 < Pow2(32) && op2 < Pow2(32)
    modifies flags
    ensures ret == Trunc(64, Signed(32, op1) * Signed(32, op2)) / WORDS
    ensures var a, b := Trunc(64, Signed(32, op1)), Trunc(64, Signed(32, op2));
            Bit(flags.value, 0) <==> FalseAlarm(64, a, b)
    ensures flags.value < Pow2(32) && Bit(flags.value, 11) == Bit(flags.value, 0)
    ensures forall j: nat :: j != 0 && j != 11 ==> Bit(flags.value, j) == Bit(old(flags.value), j)
  {
    hide With, BothOverflowFlags, Bit, Trunc, Shr, PartialSum, Signed, Pow2, FalseAlarm;
    TruncProduct(64, Signed(32, op1), Signed(32, op2));
    WideFlag(op1, op2);
    var a, b := Trunc(64, Signed(32, op1)), Trunc(64, Signed(32, op2));
    var r, overflow := Multiply(64, a, b, false);
    Halves(r);
    ret := Trunc(32, Shr(r, 32));
    flags.SetVal(BothOverflowFlags(), overflow);
  }

  /** Products may be cut before or after. */
  lemma TruncProduct(w: nat, x: int, y: int)
    ensures Trunc(w, Trunc(w, x) * Trunc(w, y)) == Trunc(w, x * y)
  {
    var k := ProductOfSums(x, y, Pow2(w));
    TruncAddMultiple(w, Trunc(w, x) * Trunc(w, y), k);
  }

  lemma ProductOfSums(x: int, y: int, p: int) returns (k: int)
    requires p > 0
    ensures x * y == (x % p) * (y % p) + k * p
  {
    var q, r, s, t := x / p, x % p, y / p, y % p;
    k := q * y + r * s;
    assert x == q * p + r && y == s * p + t;
    Factor(y, q * p, r);
    Factor(r, s * p, t);
    assert q * p * y == q * y * p;
    assert r * (s * p) == r * s * p;
    Factor(p, q * y, r * s);
  }

  lemma SignedProduct(w: nat, a: nat, b: nat)
    requires w > 0 && a < Pow2(w) && b < Pow2(w)
    ensures Trunc(w, a * b) == Trunc(w, Signed(w, a) * Signed(w, b))
  {
    hide Pow2;
    TruncSigned(w, a);
    TruncSigned(w, b);
    TruncProduct(w, Signed(w, a), Signed(w, b));
  }

  lemma TruncSigned(w: nat, a: nat)
    requires w > 0 && a < Pow2(w)
    ensures Trunc(w, Signed(w, a)) == a
  {
    TruncSmall(w, a);
    TruncAddMultiple(w, a, -1);
  }

  /** IMUL and IMULX together: the exact signed product, its high half read as a signed word. */
  lemma SignedHalves(a: nat, b: nat)
    requires a < Pow2(32) && b < Pow2(32)
    ensures var x := Signed(32, a) * Signed(32, b);
            var lo, hi := Trunc(32, x), Trunc(64, x) / WORDS;
            Signed(32, hi) * WORDS + lo == x
  {
    SignedRange(a);
    SignedRange(b);
    hide Trunc, Signed, Pow2;
    SignedProductRange(Signed(32, a), Signed(32, b));
    SignedSplit(Signed(32, a) * Signed(32, b));
  }

  lemma SignedRange(a: nat)
    requires a < Pow2(32)
    ensures -0x8000_0000 <= Signed(32, a) < 0x8000_0000
  {
    Word32();
  }

  lemma SignedProductRange(x: int, y: int)
    requires -0x8000_0000 <= x < 0x8000_0000 && -0x8000_0000 <= y < 0x8000_0000
    ensures -0x4000_0000_0000_0000 <= x * y <= 0x4000_0000_0000_0000
  {
    var m, n := Magnitude(x), Magnitude(y);
    MulMono(m, n, 0x8000_0000);
    MulMono(0x8000_0000, m, 0x8000_0000);
    var mn: int := m * n;
    assert x * y == mn || x * y == -mn;
  }

  lemma SignedSplit(x: int)
    requires -0x4000_0000_0000_0000 <= x <= 0x4000_0000_0000_0000
    ensures var lo, hi := Trunc(32, x), Trunc(64, x) / WORDS;
            Signed(32, hi) * WORDS + lo == x
  {
    hide Trunc;
    Word32();
    Word64();
    var t: nat := if x < 0 then x + WORDS * WORDS else x;
    TruncSmall(64, t);
    if x < 0 {
      TruncAddMultiple(64, x, 1);
      TruncAddMultiple(32, x, WORDS);
    }
    WordTrunc(t);
  }

  // ---------------------------------------------------------------- division

  /** DIV: a divide error for 0, otherwise quotient and remainder. */
  method ExecDiv(op1: nat, op2: nat) returns (r: Option<(nat, nat)>)
    requires op1 < Pow2(32) && op2 < Pow2(32)
    ensures r.None? <==> op2 == 0
    ensures r.Some? ==> op1 == r.value.0 * op2 + r.value.1 && r.value.1 < op2
  {
    var q, rem, divByZero := UnsignedDivide(32, op1, op2);
    if divByZero {
      return None;
    }
    return Some((q, rem));
  }

  /** IDIV: a divide error for 0, otherwise the truncated quotient cut to 32 bits. */
  method ExecIdiv(op1: nat, op2: nat) returns (r: Option<(nat, nat)>)
    requires op1 < Pow2(32) && op2 < Pow2(32)
    ensures r.None? <==> op2 == 0
    ensures r.Some? ==>
      var n, d := Signed(32, op1), Signed(32, op2);
      && d != 0
      && r.value.0 == Trunc(32, Quotient(n, d))
      && (r.value.1 == Trunc(32, Remainder(n, d)) <==> RemainderIsRight(32, n, d))
      && r.value.1 == if n < 0 < d then n % d
                      else if n < 0 then -Remainder(n, d)
                      else if d < 0 && Remainder(n, d) != 0 then Trunc(32, d - Remainder(n, d))
                      else Remainder(n, d)
  {
    var q, rem, divByZero := SignedDivide(32, op1, op2);
    if divByZero {
      return None;
    }
    return Some((q, rem));
  }
}
