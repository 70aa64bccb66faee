/** The flags register of `register_flags_interface.h`, and the conditions that SETcc and
    Jcc read from it.  The meaning of the flags is that of section 3.4.3.1 of volume 1 of
    the Intel 64 and IA-32 Software Developer's Manual. */
module Flags {
  import opened Arithmetic
  import opened Bits
  import opened Wrappers
  import opened AluAdd
  import opened AluDivide
  import opened AluOverflow
  import opened AluScan
  import opened DataTypes

  // positions of the flags
  const CF: nat := 0
  const PF: nat := 2
  const AF: nat := 4
  const ZF: nat := 6
  const SF: nat := 7
  const OF: nat := 11

  /** Bit 1 is always set. */
  const DEFAULT_VALUE: nat := 2

  const WORDS: nat := 0x1_0000_0000

  lemma Word32()
    ensures Pow2(32) == WORDS && Pow2(31) == 0x8000_0000 && Pow2(8) == 0x100 && Pow2(4) == 0x10
  {
    assert Pow2(8) == 0x100;
    Pow2Add(8, 8);
    Pow2Add(16, 16);
    assert Pow2(32) == 2 * Pow2(31);
  }

  /** `get`, for a mask of one or several flags */
  predicate Get(value: nat, mask: nat) {
    And(value, mask) != 0
  }

  /** `set_val`: the flags of the mask take the value `b`. */
  function With(value: nat, mask: nat, b: bool): (r: nat)
    requires mask < Pow2(32)
  {
    var cleared := And(value, Pow2(32) - 1 - mask);
    if b then Or(cleared, mask) else cleared
  }

  lemma WithBit(value: nat, mask: nat, b: bool, j: nat)
    requires value < Pow2(32) && mask < Pow2(32)
    ensures Bit(With(value, mask, b), j) == if Bit(mask, j) then b else Bit(value, j)
  {
    hide And, Or, Bit, Pow2;
    var cleared := And(value, Pow2(32) - 1 - mask);
    BitAnd(value, Pow2(32) - 1 - mask, j);
    BitOr(cleared, mask, j);
    if j < 32 {
      ComplementBit(32, mask, j);
    } else {
      HighBitsClear(value, 32);
      HighBitsClear(mask, 32);
    }
  }

  lemma WithBits(value: nat, mask: nat, b: bool)
    requires value < Pow2(32) && mask < Pow2(32)
    ensures forall j: nat :: Bit(With(value, mask, b), j) == if Bit(mask, j) then b else Bit(value, j)
  {
    forall j: nat
      ensures Bit(With(value, mask, b), j) == if Bit(mask, j) then b else Bit(value, j)
    {
      WithBit(value, mask, b, j);
    }
  }

  lemma WithFits(value: nat, mask: nat, b: bool)
    requires value < Pow2(32) && mask < Pow2(32)
    ensures With(value, mask, b) < Pow2(32)
  {
    hide And, Or, Bit, Pow2, With;
    HighBitsClear(value, 32);
    HighBitsClear(mask, 32);
    forall j: nat | 32 <= j
      ensures !Bit(With(value, mask, b), j)
    {
      WithBit(value, mask, b, j);
    }
    BitsBound(With(value, mask, b), 32);
  }

  /** One flag set to `b`. */
  function SetTo(value: nat, flag: nat, b: bool): nat
    requires flag < 32
  {
    Pow2Mono(flag, 32);
    With(value, Pow2(flag), b)
  }

  lemma SetToBit(value: nat, flag: nat, b: bool, j: nat)
    requires value < Pow2(32) && flag < 32
    ensures SetTo(value, flag, b) < Pow2(32)
    ensures Bit(SetTo(value, flag, b), j) == if j == flag then b else Bit(value, j)
  {
    hide Bit, With, Pow2;
    Pow2Mono(flag, 32);
    WithFits(value, Pow2(flag), b);
    WithBit(value, Pow2(flag), b, j);
    BitPow2(flag, j);
  }

  /** Setting a flag to the value it has. */
  lemma SetToSame(value: nat, flag: nat)
    requires value < Pow2(32) && flag < 32
    ensures SetTo(value, flag, Bit(value, flag)) == value
  {
    hide SetTo, Bit;
    forall j: nat
      ensures Bit(SetTo(value, flag, Bit(value, flag)), j) == Bit(value, j)
    {
      SetToBit(value, flag, Bit(value, flag), j);
    }
    Extensional(SetTo(value, flag, Bit(value, flag)), value);
  }

  // ---------------------------------------------------------------- the values of the status flags

  /** What an instruction hands to `update_status_flags`. */
  datatype Computed = Computed(
    op1: nat, size1: OpSize, op2: nat, size2: OpSize, result: nat, resultSize: OpSize, carry: bool, isSub: bool)

  predicate Negative(n: nat, size: OpSize) {
    Bit(n, LastBitPos(32, size))
  }

  /** The sign rule of `update_overflow_flag`. */
  predicate SignRule(neg1: bool, neg2: bool, negR: bool, isSub: bool) {
    neg1 == (neg2 != isSub) && negR != neg1
  }

  predicate Overflows(c: Computed) {
    SignRule(Negative(c.op1, c.size1), Negative(c.op2, c.size2), Negative(c.result, c.resultSize), c.isSub)
  }

  predicate Adjust(op1: nat, op2: nat, isSub: bool) {
    if isSub then op1 % 16 < op2 % 16 else op1 % 16 + op2 % 16 > 15
  }

  predicate EvenLowByte(result: nat) {
    Ones(result % 0x100, 8) % 2 == 0
  }

  /** `update_carry_flag`: a subtraction sets the flag on a borrow and otherwise leaves it. */
  predicate CarryAfter(value: nat, op1: nat, op2: nat, carry: bool, isSub: bool) {
    if isSub then Bit(value, CF) || op1 < op2 else carry
  }

  /** `update_status_flags`, as the sequence of updates. */
  function StatusFlags(value: nat, c: Computed): nat {
    var v4 := FourFlags(value, c);
    var v5 := SetTo(v4, CF, CarryAfter(v4, c.op1, c.op2, c.carry, c.isSub));
    SetTo(v5, AF, Adjust(c.op1, c.op2, c.isSub))
  }

  /** The updates before the carry flag. */
  function FourFlags(value: nat, c: Computed): nat {
    var v1 := SetTo(value, OF, Overflows(c));
    var v2 := SetTo(v1, SF, Negative(c.result, c.resultSize));
    var v3 := SetTo(v2, ZF, c.result == 0);
    SetTo(v3, PF, EvenLowByte(c.result))
  }

  /** Each status flag has its value afterwards, and all other bits stay. */
  lemma StatusFlagsRead(value: nat, c: Computed, j: nat)
    requires value < Pow2(32)
    ensures var v := StatusFlags(value, c);
            && v < Pow2(32)
            && Bit(v, j) ==
                 if j == OF then Overflows(c)
                 else if j == SF then Negative(c.result, c.resultSize)
                 else if j == ZF then c.result == 0
                 else if j == PF then EvenLowByte(c.result)
                 else if j == CF then CarryAfter(value, c.op1, c.op2, c.carry, c.isSub)
                 else if j == AF then Adjust(c.op1, c.op2, c.isSub)
                 else Bit(value, j)
  {
    hide SetTo, Bit, FourFlags, Overflows, Negative, EvenLowByte, Adjust;
    FourFlagsRead(value, c, j);
    FourFlagsRead(value, c, CF);
    var v4 := FourFlags(value, c);
    var v5 := SetTo(v4, CF, CarryAfter(v4, c.op1, c.op2, c.carry, c.isSub));
    SetToBit(v4, CF, CarryAfter(v4, c.op1, c.op2, c.carry, c.isSub), j);
    SetToBit(v5, AF, Adjust(c.op1, c.op2, c.isSub), j);
  }

  /** The same flag by flag, by the positions of the flags in the register. */
  lemma StatusFlagsMeaning(value: nat, c: Computed)
    requires value < Pow2(32)
    ensures var v := StatusFlags(value, c);
            var neg1, neg2 := Bit(c.op1, LastBitPos(32, c.size1)), Bit(c.op2, LastBitPos(32, c.size2));
            var negR := Bit(c.result, LastBitPos(32, c.resultSize));
            && (Bit(v, 0) <==> if c.isSub then Bit(value, 0) || c.op1 < c.op2 else c.carry)
            && (Bit(v, 2) <==> Ones(c.result % 0x100, 8) % 2 == 0)
            && (Bit(v, 4) <==> if c.isSub then c.op1 % 16 < c.op2 % 16 else c.op1 % 16 + c.op2 % 16 >= 16)
            && (Bit(v, 6) <==> c.result == 0)
            && (Bit(v, 7) <==> negR)
            && (Bit(v, 11) <==> neg1 == (neg2 != c.isSub) && negR != neg1)
            && forall j: nat :: j !in {0, 2, 4, 6, 7, 11} ==> Bit(v, j) == Bit(value, j)
  {
    hide StatusFlags, Bit, Ones;
    forall j: nat | j !in {0, 2, 4, 6, 7, 11}
      ensures Bit(StatusFlags(value, c), j) == Bit(value, j)
    {
      StatusFlagsRead(value, c, j);
    }
    StatusFlagsRead(value, c, CF);
    StatusFlagsRead(value, c, PF);
    StatusFlagsRead(value, c, AF);
    StatusFlagsRead(value, c, ZF);
    StatusFlagsRead(value, c, SF);
    StatusFlagsRead(value, c, OF);
  }

  lemma FourFlagsRead(value: nat, c: Computed, j: nat)
    requires value < Pow2(32)
    ensures var v := FourFlags(value, c);
            && v < Pow2(32)
            && Bit(v, j) ==
                 if j == OF then Overflows(c)
                 else if j == SF then Negative(c.result, c.resultSize)
                 else if j == ZF then c.result == 0
                 else if j == PF then EvenLowByte(c.result)
                 else Bit(value, j)
  {
    hide SetTo, Bit, Overflows, Negative, EvenLowByte;
    var v1 := SetTo(value, OF, Overflows(c));
    var v2 := SetTo(v1, SF, Negative(c.result, c.resultSize));
    var v3 := SetTo(v2, ZF, c.result == 0);
    SetToBit(value, OF, Overflows(c), j);
    SetToBit(v1, SF, Negative(c.result, c.resultSize), j);
    SetToBit(v2, ZF, c.result == 0, j);
    SetToBit(v3, PF, EvenLowByte(c.result), j);
  }

  // ---------------------------------------------------------------- the register

  /** `EFLAGS` */
  class Eflags {
    var value: nat

    constructor ()
      ensures value == 2
    {
      value := DEFAULT_VALUE;
    }

    /** The flags of the mask take the value `val`; all other bits stay. */
    method SetVal(mask: nat, val: bool)
      requires value < Pow2(32) && mask < Pow2(32)
      modifies this
      ensures value < Pow2(32)
      ensures forall j: nat :: Bit(value, j) == if Bit(mask, j) then val else Bit(old(value), j)
      ensures value == With(old(value), mask, val)
    {
      hide And, Or, Pow2, Bit;
      WithFits(value, mask, val);
      WithBits(value, mask, val);
      value := And(value, Pow2(32) - 1 - mask);
      if val {
        value := Or(value, mask);
      }
    }

    method SetFlag(flag: nat, val: bool)
      requires value < Pow2(32) && flag < 32
      modifies this
      ensures value < Pow2(32) && value == SetTo(old(value), flag, val)
    {
      Pow2Mono(flag, 32);
      SetVal(Pow2(flag), val);
    }

    method UpdateSignFlag(result: nat, size: OpSize)
      requires value < Pow2(32) && result < Pow2(32)
      modifies this
      ensures value < Pow2(32) && value == SetTo(old(value), SF, Negative(result, size))
    {
      hide SetTo, Bit, Pow2;
      var neg := CheckIsNegative(32, result, size);
      SetFlag(SF, neg);
    }

    method UpdateZeroFlag(result: nat)
      requires value < Pow2(32)
      modifies this
      ensures value < Pow2(32) && value == SetTo(old(value), ZF, result == 0)
    {
      SetFlag(ZF, result == 0);
    }

    method UpdateParityFlag(result: nat)
      requires value < Pow2(32)
      modifies this
      ensures value < Pow2(32) && value == SetTo(old(value), PF, EvenLowByte(result))
    {
      hide SetTo;
      LowByte(result);
      var even := CheckParity(8, And(result, 0xFF));
      SetFlag(PF, even);
    }

    method UpdateCarryFlag(op1: nat, op2: nat, carry: bool, isSub: bool)
      requires value < Pow2(32) && op1 < Pow2(32) && op2 < Pow2(32)
      modifies this
      ensures value < Pow2(32) && value == SetTo(old(value), CF, CarryAfter(old(value), op1, op2, carry, isSub))
    {
      hide SetTo, Bit;
      SetToSame(value, CF);
      if isSub {
        var ge := CompareGreaterOrEqual(32, op1, op2);
        if !ge {
          SetFlag(CF, true);
        }
      } else {
        SetFlag(CF, carry);
      }
    }

    method UpdateOverflowFlag(
      op1: nat, op2: nat, result: nat, op1Size: OpSize, op2Size: OpSize, retSize: OpSize, isSub: bool)
      requires value < Pow2(32) && op1 < Pow2(32) && op2 < Pow2(32) && result < Pow2(32)
      modifies this
      ensures value < Pow2(32) && value == SetTo(old(value), OF,
        SignRule(Negative(op1, op1Size), Negative(op2, op2Size), Negative(result, retSize), isSub))
    {
      hide SetTo, Bit, Pow2;
      var neg1 := CheckIsNegative(32, op1, op1Size);
      var neg2 := CheckIsNegative(32, op2, op2Size);
      var negR := CheckIsNegative(32, result, retSize);
      if isSub {
        neg2 := !neg2;
      }
      var val := !(neg1 != neg2) && (negR != neg1);
      SetFlag(OF, val);
    }

    method UpdateAdjustFlag(op1: nat, op2: nat, isSub: bool)
      requires value < Pow2(32)
      modifies this
      ensures value < Pow2(32) && value == SetTo(old(value), AF, Adjust(op1, op2, isSub))
    {
      hide And, Trunc, Pow2, Adjust, SetTo;
      LowDigits(op1, op2);
      var low;
      if isSub {
        low := SubNoCarry(32, And(op1, 0x0F), 32, And(op2, 0x0F));
      } else {
        low := AddNoCarry(32, And(op1, 0x0F), And(op2, 0x0F));
      }
      // the result is kept in 8 bits
      var gt := CompareGreater(8, Trunc(8, low), 0x0F);
      SetFlag(AF, gt);
    }

    method UpdateStatusFlags(
      op1: nat, op2: nat, result: nat, op1Size: OpSize, op2Size: OpSize, retSize: OpSize, carry: bool, isSub: bool)
      requires value < Pow2(32) && op1 < Pow2(32) && op2 < Pow2(32) && result < Pow2(32)
      modifies this
      ensures value < Pow2(32)
      ensures value == StatusFlags(old(value), Computed(op1, op1Size, op2, op2Size, result, retSize, carry, isSub))
      ensures Bit(value, 0) <==> if isSub then Bit(old(value), 0) || op1 < op2 else carry
      ensures Bit(value, 2) <==> Ones(result % 0x100, 8) % 2 == 0
      ensures Bit(value, 4) <==> if isSub then op1 % 16 < op2 % 16 else op1 % 16 + op2 % 16 >= 16
      ensures Bit(value, 6) <==> result == 0
      ensures Bit(value, 7) <==> Bit(result, LastBitPos(32, retSize))
      ensures forall j: nat :: j !in {0, 2, 4, 6, 7, 11} ==> Bit(value, j) == Bit(old(value), j)
    {
      hide SetTo, SignRule, Negative, EvenLowByte, CarryAfter, Adjust, Bit, Ones;
      StatusFlagsMeaning(value, Computed(op1, op1Size, op2, op2Size, result, retSize, carry, isSub));
      UpdateOverflowFlag(op1, op2, result, op1Size, op2Size, retSize, isSub);
      UpdateSignFlag(result, retSize);
      UpdateZeroFlag(result);
      UpdateParityFlag(result);
      UpdateCarryFlag(op1, op2, carry, isSub);
      UpdateAdjustFlag(op1, op2, isSub);
    }
  }

  lemma LowByte(n: nat)
    ensures And(n, 0xFF) == n % 0x100
  {
    assert Pow2(8) == 0x100;
    LowBitsMask(n, 8);
  }

  /** The low hexadecimal digits, their sum and their difference in 8 bits. */
  lemma LowDigits(op1: nat, op2: nat)
    ensures And(op1, 0x0F) == op1 % 16 && And(op2, 0x0F) == op2 % 16
    ensures Pow2(32) > 256 && Pow2(8) == 256
    ensures Trunc(8, (op1 % 16 + op2 % 16) % Pow2(32)) > 15 <==> Adjust(op1, op2, false)
    ensures Trunc(8, Trunc(32, op1 % 16 - op2 % 16)) > 15 <==> Adjust(op1, op2, true)
  {
    hide And, Pow2;
    Word32();
    LowBitsMask(op1, 4);
    LowBitsMask(op2, 4);
    var x, y := op1 % 16, op2 % 16;
    TruncSmall(32, x + y);
    TruncSmall(8, x + y);
    if x >= y {
      TruncSmall(32, x - y);
      TruncSmall(8, x - y);
    } else {
      DivModUnique(x - y, WORDS, -1, WORDS + x - y);
      DivModUnique(WORDS + x - y, 256, 0x00FF_FFFF, 256 + x - y);
    }
  }

  // ---------------------------------------------------------------- conditions

  /** The condition codes of SETcc (0 to 15) and Jcc (0 to 17); none for other codes, which
      the source answers with a bad instruction. */
  function Condition(code: nat, value: nat, ecx: nat): (r: Option<bool>)
    ensures r.Some? <==> code <= 17
  {
    var less := Get(value, Pow2(SF)) != Get(value, Pow2(OF));
    match code
    case 0 => Some(Get(value, Pow2(OF)))
    case 1 => Some(!Get(value, Pow2(OF)))
    case 2 => Some(Get(value, Pow2(CF)))
    case 3 => Some(!Get(value, Pow2(CF)))
    case 4 => Some(Get(value, Pow2(ZF)))
    case 5 => Some(!Get(value, Pow2(ZF)))
    case 6 => Some(Get(value, Or(Pow2(ZF), Pow2(CF))))
    case 7 => Some(!Get(value, Or(Pow2(ZF), Pow2(CF))))
    case 8 => Some(Get(value, Pow2(SF)))
    case 9 => Some(!Get(value, Pow2(SF)))
    case 10 => Some(Get(value, Pow2(PF)))
    case 11 => Some(!Get(value, Pow2(PF)))
    case 12 => Some(less)
    case 13 => Some(!less)
    case 14 => Some(Get(value, Pow2(ZF)) || less)
    case 15 => Some(!Get(value, Pow2(ZF)) && !less)
    case 16 => Some(ecx % 0x1_0000 == 0)
    case 17 => Some(ecx == 0)
    case _ => None
  }

  lemma GetFlag(value: nat, flag: nat)
    ensures Get(value, Pow2(flag)) <==> Bit(value, flag)
  {
    AndMask(value, flag);
  }

  lemma GetEither(value: nat, f: nat, g: nat)
    ensures Get(value, Or(Pow2(f), Pow2(g))) <==> Bit(value, f) || Bit(value, g)
  {
    hide And, Or, Bit, Pow2;
    var mask := Or(Pow2(f), Pow2(g));
    forall j: nat
      ensures Bit(And(value, mask), j) <==> Bit(value, j) && (j == f || j == g)
      ensures !Bit(0, j)
    {
      BitAnd(value, mask, j);
      BitOr(Pow2(f), Pow2(g), j);
      BitPow2(f, j);
      BitPow2(g, j);
      BitZero(j);
    }
    if !Bit(value, f) && !Bit(value, g) {
      Extensional(And(value, mask), 0);
    }
  }

  /** The conditions in terms of the flags: an odd code is the negation of the even one before it. */
  lemma ConditionRead(code: nat, value: nat, ecx: nat)
    requires code <= 17
    ensures var odd := code % 2 == 1;
            Condition(code, value, ecx) == Some(
              if code <= 1 then Bit(value, 11) != odd
              else if code <= 3 then Bit(value, 0) != odd
              else if code <= 5 then Bit(value, 6) != odd
              else if code <= 7 then (Bit(value, 6) || Bit(value, 0)) != odd
              else if code <= 9 then Bit(value, 7) != odd
              else if code <= 11 then Bit(value, 2) != odd
              else if code <= 13 then (Bit(value, 7) != Bit(value, 11)) != odd
              else if code <= 15 then (Bit(value, 6) || Bit(value, 7) != Bit(value, 11)) != odd
              else if code == 16 then ecx % 0x1_0000 == 0
              else ecx == 0)
  {
    hide Get, Bit, Or, Pow2;
    GetFlag(value, CF);
    GetFlag(value, PF);
    GetFlag(value, ZF);
    GetFlag(value, SF);
    GetFlag(value, OF);
    GetEither(value, ZF, CF);
  }

  /** Only codes 16 and 17 look at ECX. */
  lemma ConditionIgnoresEcx(code: nat, value: nat, ecx: nat)
    requires code < 16
    ensures Condition(code, value, ecx) == Condition(code, value, 0)
  {
  }

  function Sub32(a: nat, b: nat): nat {
    Trunc(32, a - b)
  }

  /** What SUB computes from two operands of one size.  The flags do not depend on its carry. */
  function Subtracted(a: nat, b: nat, size: OpSize): Computed {
    Computed(a, size, b, size, Sub32(a, b), size, false, true)
  }

  /** A result of 32 bits, read as one of `w` bits. */
  lemma ResultSign(w: nat, x: int, r: nat)
    requires 0 < w <= 32 && r == Trunc(32, x)
    ensures Bit(r, w - 1) <==> Signed(w, Trunc(w, x)) < 0
  {
    TruncTrunc(w, 32, x);
    BitOfTrunc(w, r, w - 1);
    SignBit(w, Trunc(w, x));
  }

  lemma Borrow(w: nat, a: nat, b: nat)
    requires a < Pow2(w) && b < Pow2(w)
    ensures Trunc(w, a - b) == if a >= b then a - b else a - b + Pow2(w)
  {
    if a >= b {
      TruncSmall(w, a - b);
    } else {
      TruncSmall(w, a - b + Pow2(w));
      TruncAddMultiple(w, a - b, 1);
    }
  }

  /** The sign rule on `w` bits. */
  lemma SubSignRule(w: nat, a: nat, b: nat)
    requires w > 0 && a < Pow2(w) && b < Pow2(w)
    ensures var x, y, t := Signed(w, a), Signed(w, b), Trunc(w, a - b);
            var overflow := SignRule(x < 0, y < 0, Signed(w, t) < 0, true);
            && (overflow <==> !FitsSigned(w, x - y))
            && ((Signed(w, t) < 0) != overflow <==> x < y)
  {
    hide Trunc, Pow2;
    NextColumn(w - 1);
    Borrow(w, a, b);
  }

  lemma SubSigns(size: OpSize, a: nat, b: nat)
    requires size != UNKNOWN && a < Pow2(8 * Width(size)) && b < Pow2(8 * Width(size))
    ensures a < Pow2(32) && b < Pow2(32) && (Sub32(a, b) == 0 <==> a == b)
    ensures var w, c := 8 * Width(size), Subtracted(a, b, size);
            var x, y := Signed(w, a), Signed(w, b);
            && (Overflows(c) <==> !FitsSigned(w, x - y))
            && (Negative(c.result, size) != Overflows(c) <==> x < y)
  {
    hide Bit, Trunc, Pow2, Signed, SignRule;
    var w := 8 * Width(size);
    Pow2Mono(w, 32);
    Borrow(32, a, b);
    SubSignRule(w, a, b);
    ResultSign(w, a - b, Sub32(a, b));
    SignBit(w, a);
    SignBit(w, b);
  }

  /** After SUB a, b of one size, from any flags: the overflow flag is signed overflow, and the
      signed and the equality conditions decide the comparison of `a` and `b`.  The carry flag is
      never cleared by a subtraction, so the unsigned ones do so exactly when it was clear before,
      or has to be set anyway. */
  lemma SubDecides(value: nat, size: OpSize, a: nat, b: nat)
    requires value < Pow2(32) && size != UNKNOWN
    requires a < Pow2(8 * Width(size)) && b < Pow2(8 * Width(size))
    ensures var w, v := 8 * Width(size), StatusFlags(value, Subtracted(a, b, size));
            var x, y := Signed(w, a), Signed(w, b);
            && (Bit(v, OF) <==> !FitsSigned(w, x - y))
            && (Condition(4, v, 0) == Some(a == b) && Condition(5, v, 0) == Some(a != b))
            && (Condition(12, v, 0) == Some(x < y) && Condition(13, v, 0) == Some(x >= y))
            && (Condition(14, v, 0) == Some(x <= y) && Condition(15, v, 0) == Some(x > y))
            && (Condition(2, v, 0) == Some(a < b) <==> !Bit(value, CF) || a < b)
            && (Condition(3, v, 0) == Some(a >= b) <==> !Bit(value, CF) || a < b)
            && (Condition(6, v, 0) == Some(a <= b) <==> !Bit(value, CF) || a <= b)
            && (Condition(7, v, 0) == Some(a > b) <==> !Bit(value, CF) || a <= b)
  {
    hide Bit, StatusFlags, Overflows, Negative, Condition, Sub32, Pow2, Signed, EvenLowByte, Adjust;
    var c := Subtracted(a, b, size);
    SubSigns(size, a, b);
    SameNumber(8 * Width(size), a, b);
    StatusFlagsRead(value, c, OF);
    StatusFlagsRead(value, c, SF);
    StatusFlagsRead(value, c, ZF);
    StatusFlagsRead(value, c, CF);
    ConditionsRead(StatusFlags(value, c));
  }

  /** The comparison of two words of `w` bits that a condition code names: unsigned for B, AE, BE and
      A, signed for L, GE, LE and G. */
  predicate Compares(code: nat, w: nat, a: nat, b: nat)
    requires w > 0
  {
    var x, y := Signed(w, a), Signed(w, b);
    match code
    case 2 => a < b
    case 3 => a >= b
    case 4 => a == b
    case 5 => a != b
    case 6 => a <= b
    case 7 => a > b
    case 12 => x < y
    case 13 => x >= y
    case 14 => x <= y
    case 15 => x > y
    case _ => false
  }

  const COMPARISONS: set<nat> := {2, 3, 4, 5, 6, 7, 12, 13, 14, 15}

  /** From a clear carry flag, the condition after SUB is the comparison it names. */
  lemma SubCompares(value: nat, size: OpSize, a: nat, b: nat, code: nat)
    requires value < Pow2(32) && !Bit(value, CF) && size != UNKNOWN && code in COMPARISONS
    requires a < Pow2(8 * Width(size)) && b < Pow2(8 * Width(size))
    ensures Condition(code, StatusFlags(value, Subtracted(a, b, size)), 0)
         == Some(Compares(code, 8 * Width(size), a, b))
  {
    hide Bit, StatusFlags, Condition, Signed, Pow2, Subtracted;
    SubDecides(value, size, a, b);
  }

  lemma ConditionsRead(value: nat)
    ensures Condition(2, value, 0) == Some(Bit(value, CF)) && Condition(3, value, 0) == Some(!Bit(value, CF))
    ensures Condition(4, value, 0) == Some(Bit(value, ZF)) && Condition(5, value, 0) == Some(!Bit(value, ZF))
    ensures Condition(6, value, 0) == Some(Bit(value, ZF) || Bit(value, CF))
    ensures Condition(7, value, 0) == Some(!(Bit(value, ZF) || Bit(value, CF)))
    ensures Condition(12, value, 0) == Some(Bit(value, SF) != Bit(value, OF))
    ensures Condition(13, value, 0) == Some(Bit(value, SF) == Bit(value, OF))
    ensures Condition(14, value, 0) == Some(Bit(value, ZF) || Bit(value, SF) != Bit(value, OF))
    ensures Condition(15, value, 0) == Some(!(Bit(value, ZF) || Bit(value, SF) != Bit(value, OF)))
  {
    hide Bit, Condition;
    forall code: nat | code <= 15
      ensures Condition(code, value, 0).Some?
    {
      ConditionRead(code, value, 0);
    }
    ConditionRead(2, value, 0);
    ConditionRead(3, value, 0);
    ConditionRead(4, value, 0);
    ConditionRead(5, value, 0);
    ConditionRead(6, value, 0);
    ConditionRead(7, value, 0);
    ConditionRead(12, value, 0);
    ConditionRead(13, value, 0);
    ConditionRead(14, value, 0);
    ConditionRead(15, value, 0);
  }

  /** Equal as words and equal as signed numbers is the same. */
  lemma SameNumber(w: nat, a: nat, b: nat)
    requires w > 0 && a < Pow2(w) && b < Pow2(w)
    ensures Signed(w, a) == Signed(w, b) <==> a == b
  {
  }

  /** The stale carry: with the carry flag set before, SUB 5, 3 reports 5 below 3. */
  lemma StaleCarry(value: nat)
    requires value < Pow2(32) && Bit(value, CF)
    ensures Condition(2, StatusFlags(value, Subtracted(5, 3, DW)), 0) == Some(true)
  {
    hide Bit, StatusFlags, Condition, Sub32;
    Word32();
    SubDecides(value, DW, 5, 3);
    ConditionRead(2, StatusFlags(value, Subtracted(5, 3, DW)), 0);
  }

  /** What an addition computes from two operands of one size. */
  function Added(a: nat, b: nat, carryIn: bool, size: OpSize): Computed {
    var sum := a + b + Num(carryIn);
    Computed(a, size, b, size, Trunc(32, sum), size, sum >= Pow2(32), false)
  }

  /** After an addition, with or without a carry in: the overflow flag is signed overflow, and the
      sign flag the sign of the sum.  The sum is not cut to 8 or 16 bits, so for operands of these
      sizes the carry flag is wrong exactly when there is a carry, and the zero flag exactly when
      the sum is 2^8 or 2^16. */
  lemma AddFlags(value: nat, size: OpSize, a: nat, b: nat, carryIn: bool)
    requires value < Pow2(32) && size != UNKNOWN
    requires a < Pow2(8 * Width(size)) && b < Pow2(8 * Width(size))
    ensures var w, v := 8 * Width(size), StatusFlags(value, Added(a, b, carryIn, size));
            var sum, x, y := a + b + Num(carryIn), Signed(w, a), Signed(w, b);
            && (Bit(v, OF) <==> !FitsSigned(w, x + y + Num(carryIn)))
            && (Bit(v, SF) <==> Signed(w, Trunc(w, sum)) < 0)
            && ((Bit(v, CF) <==> sum >= Pow2(w)) <==> size == DW || sum < Pow2(w))
            && ((Bit(v, ZF) <==> Trunc(w, sum) == 0) <==> size == DW || sum != Pow2(w))
  {
    hide Bit, StatusFlags, Trunc, Pow2, Signed, SignRule, EvenLowByte, Adjust;
    var w, sum, c := 8 * Width(size), a + b + Num(carryIn), Added(a, b, carryIn, size);
    StatusFlagsRead(value, c, OF);
    StatusFlagsRead(value, c, SF);
    StatusFlagsRead(value, c, ZF);
    StatusFlagsRead(value, c, CF);
    Pow2Mono(w, 32);
    AddSignRule(w, a, b, carryIn);
    ResultSign(w, sum, c.result);
    SignBit(w, a);
    SignBit(w, b);
    CarryOver(w, sum);
    if size != DW {
      TruncSmall(32, sum);
    }
  }

  /** ADD of the bytes 255 and 1: the carry and the zero flag both stay clear. */
  lemma ByteCarryMissed(value: nat)
    requires value < Pow2(32)
    ensures !Bit(StatusFlags(value, Added(0xFF, 1, false, B)), CF)
    ensures !Bit(StatusFlags(value, Added(0xFF, 1, false, B)), ZF)
  {
    hide Bit, StatusFlags, Trunc;
    Word32();
    TruncSmall(32, 0x100);
    StatusFlagsRead(value, Added(0xFF, 1, false, B), CF);
    StatusFlagsRead(value, Added(0xFF, 1, false, B), ZF);
  }

  lemma AddSignRule(w: nat, a: nat, b: nat, carryIn: bool)
    requires w > 0 && a < Pow2(w) && b < Pow2(w)
    ensures var x, y, t := Signed(w, a), Signed(w, b), Trunc(w, a + b + Num(carryIn));
            SignRule(x < 0, y < 0, Signed(w, t) < 0, false) <==>
              !FitsSigned(w, x + y + Num(carryIn))
  {
    hide Trunc, Pow2;
    NextColumn(w - 1);
    CarryOver(w, a + b + Num(carryIn));
  }

  lemma CarryOver(w: nat, sum: nat)
    requires sum < 2 * Pow2(w)
    ensures Trunc(w, sum) == if sum < Pow2(w) then sum else sum - Pow2(w)
  {
    if sum < Pow2(w) {
      TruncSmall(w, sum);
    } else {
      TruncSmall(w, sum - Pow2(w));
      TruncAddMultiple(w, sum - Pow2(w), 1);
    }
  }
}
