/** The processor's registers, and the instructions that work on the stack or choose the next
    instruction, on 32-bit operands. */
module Cpu {
  import Arithmetic
  import opened Bits
  import opened Wrappers
  import opened AluAdd
  import opened DataTypes
  import opened Memory
  import opened Stack
  import Flags
  import Instructions

  lemma Words()
    ensures Pow2(32) == ADDRESSES && Limit(4) == ADDRESSES
  {
    Flags.Word32();
    WordLimit();
  }

  /** Adding a 32-bit constant, positive or negative, to a register. */
  function Moved(esp: nat, delta: int): nat {
    (esp + delta) % ADDRESSES
  }

  /** Every address that `n` pushes can touch stays inside its array. */
  predicate FitsBelow(l: Layout, esp: nat, n: nat) {
    forall k :: 1 <= k <= n ==> Fits(l, Moved(esp, -4 * k), DW)
  }

  lemma NextFitsBelow(l: Layout, esp: nat, n: nat)
    requires n > 0 && FitsBelow(l, esp, n)
    ensures Fits(l, Moved(esp, -4), DW) && FitsBelow(l, Moved(esp, -4), n - 1)
  {
    hide Fits, Moved;
    assert Fits(l, Moved(esp, -4 * 1), DW);
    forall k | 1 <= k <= n - 1
      ensures Fits(l, Moved(Moved(esp, -4), -4 * k), DW)
    {
      MovedOn(esp, k);
      assert Fits(l, Moved(esp, -4 * (k + 1)), DW);
    }
  }

  /** PUSHA from `index` on, in whatever regions the pushes fall: the number of good pushes, the
      registers and the contents.  A push that faults has moved ESP already. */
  function PushaEffect(l: Layout, regs: seq<nat>, m: Contents, index: nat, savedEsp: nat):
    (r: (nat, seq<nat>, Contents))
    requires |regs| == 8 && m.Valid() && index <= 7 && FitsBelow(l, regs[ESP], 8 - index)
    ensures r.0 <= 8 - index
    decreases 8 - index
  {
    NextFitsBelow(l, regs[ESP], 8 - index);
    var at := Moved(regs[ESP], -4);
    var regs' := regs[ESP := at];
    if !Writable(l, at) then (0, regs', m) else
    var m' := Written(l, m, at, if index == 3 then savedEsp else regs[index], DW);
    if index == 7 then (1, regs', m') else
    var (done, regs'', m'') := PushaEffect(l, regs', m', index + 1, savedEsp);
    (done + 1, regs'', m'')
  }

  /** One iteration: the push, and what is left to do. */
  lemma PushaEffectStep(l: Layout, regs: seq<nat>, m: Contents, index: nat, savedEsp: nat)
    requires |regs| == 8 && m.Valid() && index <= 7 && FitsBelow(l, regs[ESP], 8 - index)
    ensures Fits(l, Moved(regs[ESP], -4), DW)
    ensures var at, effect := Moved(regs[ESP], -4), PushaEffect(l, regs, m, index, savedEsp);
            var regs', m' := regs[ESP := at], Written(l, m, at, if index == 3 then savedEsp else regs[index], DW);
            if !Writable(l, at) then m' == m && effect == (0, regs', m')
            else if index == 7 then effect == (1, regs', m')
            else
              && FitsBelow(l, at, 7 - index)
              && var rest := PushaEffect(l, regs', m', index + 1, savedEsp);
                 effect == (rest.0 + 1, rest.1, rest.2)
  {
    hide Fits, RegionOf, Store;
    NextFitsBelow(l, regs[ESP], 8 - index);
  }

  predicate BelowOnStack(l: Layout, esp: nat, n: nat) {
    forall k :: 1 <= k <= n ==> RegionOf(l, Moved(esp, -4 * k)) == Region.Stack
  }

  lemma NextOnStack(l: Layout, esp: nat, n: nat)
    requires n > 0 && BelowOnStack(l, esp, n)
    ensures RegionOf(l, Moved(esp, -4)) == Region.Stack && BelowOnStack(l, Moved(esp, -4), n - 1)
  {
    hide RegionOf, Moved;
    assert RegionOf(l, Moved(esp, -4 * 1)) == Region.Stack;
    forall k | 1 <= k <= n - 1
      ensures RegionOf(l, Moved(Moved(esp, -4), -4 * k)) == Region.Stack
    {
      MovedOn(esp, k);
      assert RegionOf(l, Moved(esp, -4 * (k + 1))) == Region.Stack;
    }
  }

  /** Where the pushes stay in the stack, PUSHA is that of the stack machine. */
  lemma {:induction false} PushaOnStack(l: Layout, m: Contents, s: Machine, index: nat, savedEsp: nat)
    requires m.Valid() && s.Valid() && m.stack == s.stack && index <= 7
    requires FitsBelow(l, s.regs[ESP], 8 - index) && BelowOnStack(l, s.regs[ESP], 8 - index)
    ensures PushaFrom(s, index, savedEsp).Some?
    ensures var r := PushaFrom(s, index, savedEsp).value;
            && PushaEffect(l, s.regs, m, index, savedEsp) == (8 - index, r.regs, m.(stack := r.stack))
            && r.eip == s.eip && r.clock == s.clock + (7 - index)
    decreases 8 - index
  {
    hide Store, PushaFrom, RegionOf, Fits, OffsetOf, FitsBelow, BelowOnStack;
    NextFitsBelow(l, s.regs[ESP], 8 - index);
    NextOnStack(l, s.regs[ESP], 8 - index);
    var at, v := Moved(s.regs[ESP], -4), if index == 3 then savedEsp else s.regs[index];
    FitsInRegion(l, at);
    WrittenOnStack(l, m, at, v);
    var s' := s.(regs := s.regs[ESP := at], stack := Written(l, m, at, v, DW).stack);
    PushedView(s, v, at, s');
    PushaUnfold(s, index, savedEsp, s');
    if index < 7 {
      PushaOnStack(l, m.(stack := s'.stack), s'.(clock := s.clock + 1), index + 1, savedEsp);
    }
  }

  /** The registers after one iteration of POPA; the one for index 4 drops its value. */
  function Popped(l: Layout, regs: seq<nat>, m: Contents, index: nat): (r: seq<nat>)
    requires |regs| == 8 && m.Valid() && index <= 7 && Fits(l, regs[ESP], DW) && Readable(l, regs[ESP])
    ensures |r| == 8
  {
    var regs' := regs[ESP := Moved(regs[ESP], 4)];
    if index == 4 then regs' else regs'[7 - index := Loaded(l, m, regs[ESP], DW)]
  }

  /** Every read of POPA from `index` on stays inside its array. */
  predicate PopaFits(l: Layout, regs: seq<nat>, m: Contents, index: nat)
    requires |regs| == 8 && m.Valid() && index <= 7
    decreases 8 - index
  {
    && Fits(l, regs[ESP], DW)
    && (Readable(l, regs[ESP]) && index < 7 ==> PopaFits(l, Popped(l, regs, m, index), m, index + 1))
  }

  /** POPA from `index` on, in whatever regions the pops fall: the number of good pops and the registers. */
  function PopaEffect(l: Layout, regs: seq<nat>, m: Contents, index: nat): (r: (nat, seq<nat>))
    requires |regs| == 8 && m.Valid() && index <= 7 && PopaFits(l, regs, m, index)
    ensures r.0 <= 8 - index
    decreases 8 - index
  {
    if !Readable(l, regs[ESP]) then (0, regs) else
    var regs' := Popped(l, regs, m, index);
    if index == 7 then (1, regs') else
    var (done, regs'') := PopaEffect(l, regs', m, index + 1);
    (done + 1, regs'')
  }

  /** One iteration: the pop, and what is left to do. */
  lemma PopaEffectStep(l: Layout, regs: seq<nat>, m: Contents, index: nat)
    requires |regs| == 8 && m.Valid() && index <= 7 && PopaFits(l, regs, m, index)
    ensures Fits(l, regs[ESP], DW)
    ensures var effect := PopaEffect(l, regs, m, index);
            if !Readable(l, regs[ESP]) then effect == (0, regs)
            else if index == 7 then effect == (1, Popped(l, regs, m, index))
            else
              && PopaFits(l, Popped(l, regs, m, index), m, index + 1)
              && var rest := PopaEffect(l, Popped(l, regs, m, index), m, index + 1);
                 effect == (rest.0 + 1, rest.1)
  {
    hide Fits, Readable, Popped;
  }

  /** No other region hides a part of the stack. */
  predicate StackVisible(l: Layout) {
    forall a :: STACK_POS <= a < STACK_END ==> RegionOf(l, a) == Region.Stack
  }

  /** Where the pops stay in the stack, POPA is that of the stack machine. */
  lemma {:induction false} PopaOnStack(l: Layout, m: Contents, s: Machine, index: nat)
    requires m.Valid() && s.Valid() && m.stack == s.stack && StackVisible(l) && index <= 7
    requires PopaFrom(s, index).Some?
    ensures PopaFits(l, s.regs, m, index)
    ensures PopaEffect(l, s.regs, m, index) == (8 - index, PopaFrom(s, index).value.regs)
    ensures PopaFrom(s, index).value
         == s.(regs := PopaFrom(s, index).value.regs, clock := s.clock + (7 - index))
    decreases 8 - index
  {
    hide Load, PopaFrom, RegionOf, OffsetOf, Fits;
    PopaUnfold(s, index);
    var esp, p := s.regs[ESP], PopValue(s).value;
    assert RegionOf(l, esp) == Region.Stack;
    StackAccess(l, esp);
    var s' := if index == 4 then p.0 else p.0.(regs := p.0.regs[7 - index := p.1]);
    assert Popped(l, s.regs, m, index) == s'.regs;
    if index < 7 {
      PopaOnStack(l, m, s'.(clock := s.clock + 1), index + 1);
    }
  }

  lemma StackAccess(l: Layout, address: nat)
    requires RegionOf(l, address) == Region.Stack && STACK_POS <= address && address + 4 <= STACK_END
    ensures Fits(l, address, DW) && OffsetOf(l, address) == address - STACK_POS
  {
  }

  class Cpu {
    const registers: array<nat>
    var eip: nat
    var clockCycleCount: nat
    const memory: MemoryMap

    constructor (memory: MemoryMap)
      requires memory.Valid()
      ensures Valid() && this.memory == memory && fresh(registers)
    {
      this.memory := memory;
      registers := new nat[8](_ => 0);
      eip, clockCycleCount := 0, 0;
    }

    ghost predicate Valid()
      reads this, registers
    {
      && registers.Length == 8 && memory.Valid()
      && (forall r :: 0 <= r < 8 ==> registers[r] < ADDRESSES)
      && eip < ADDRESSES
      && (registers as object) !in {memory.rom.bytes, memory.ram.bytes, memory.stack.bytes}
    }

    /** The state that the stack instructions work on. */
    ghost function View(): (m: Machine)
      requires Valid()
      reads this, registers, memory.stack.bytes
      ensures m.Valid()
    {
      Machine(registers[..], eip, memory.stack.bytes[..], clockCycleCount)
    }

    /** A 4-byte access at this address hits the stack region. */
    predicate OnStack(address: nat) {
      RegionOf(memory.layout, address) == Region.Stack
    }

    /** `push`: ESP goes down by 4 even if the write faults. */
    method Push(value: nat) returns (r: Access<()>)
      requires Valid() && value < ADDRESSES
      requires Fits(memory.layout, Moved(registers[ESP], -4), DW)
      modifies registers, memory.ram.bytes, memory.stack.bytes
      ensures Valid()
      ensures registers[..] == old(registers[..])[ESP := Moved(old(registers[ESP]), -4)]
      ensures r.Ok? <==> Writable(memory.layout, Moved(old(registers[ESP]), -4))
      ensures memory.Bytes() == Written(memory.layout, old(memory.Bytes()), Moved(old(registers[ESP]), -4), value, DW)
      ensures OnStack(Moved(old(registers[ESP]), -4)) ==> PushValue(old(View()), value) == Some(View())
    {
      hide Store, Fits, RegionOf, OffsetOf, PushValue, Moved, Written;
      Words();
      ghost var m0, c0 := View(), memory.Bytes();
      var esp := registers[ESP];
      esp := AddNoCarry(32, esp, 0xFFFF_FFFC);
      DownByFour(registers[ESP], esp);
      registers[ESP] := esp;
      FitsInRegion(memory.layout, esp);
      r := memory.Write(esp, value, DW);
      if OnStack(esp) {
        WrittenOnStack(memory.layout, c0, esp, value);
        PushedView(m0, value, esp, View());
      }
    }

    /** `pop`: ESP goes up by 4 once the read succeeded. */
    method Pop() returns (r: Access<nat>)
      requires Valid() && Fits(memory.layout, registers[ESP], DW)
      modifies registers
      ensures Valid()
      ensures r.Ok? <==> Readable(memory.layout, old(registers[ESP]))
      ensures r.Ok? ==> r.value == Loaded(memory.layout, old(memory.Bytes()), old(registers[ESP]), DW)
      ensures registers[..] ==
        if r.Ok? then old(registers[..])[ESP := Moved(old(registers[ESP]), 4)] else old(registers[..])
      ensures OnStack(old(registers[ESP])) ==> r.Ok? && PopValue(old(View())) == Some((View(), r.value))
    {
      hide Load, Fits, RegionOf, Loaded, PopValue;
      Words();
      ghost var m0, c0, esp0 := View(), memory.Bytes(), registers[ESP];
      var esp := registers[ESP];
      r := memory.Read(esp, DW);
      if r.Ok? {
        esp := AddNoCarry(32, esp, 4);
        registers[ESP] := esp;
      }
      if OnStack(esp0) {
        LoadedOnStack(memory.layout, c0, esp0);
        PoppedView(m0, View());
      }
    }

    /** PUSH */
    method ExecPush(op1: nat) returns (r: Access<()>)
      requires Valid() && op1 < ADDRESSES
      requires Fits(memory.layout, Moved(registers[ESP], -4), DW)
      modifies this, registers, memory.ram.bytes, memory.stack.bytes
      ensures Valid()
      ensures r.Ok? <==> Writable(memory.layout, Moved(old(registers[ESP]), -4))
      ensures registers[..] == old(registers[..])[ESP := Moved(old(registers[ESP]), -4)]
      ensures memory.Bytes() == Written(memory.layout, old(memory.Bytes()), Moved(old(registers[ESP]), -4), op1, DW)
      ensures eip == if r.Ok? then (old(eip) + 1) % 0x1_0000_0000 else old(eip)
      ensures clockCycleCount == old(clockCycleCount)
      ensures OnStack(Moved(old(registers[ESP]), -4)) ==> r.Ok? && Step(old(View()), Instr.Push(op1)) == Some(View())
    {
      hide Store, Fits, OffsetOf, RegionOf, Written, Moved, PushValue;
      Words();
      r := Push(op1);
      if r.Ok? {
        eip := AddNoCarry(32, eip, 1);
      }
    }

    /** POP to a register: the instruction's result is written to its operand afterwards. */
    method ExecPop(reg: nat) returns (r: Access<()>)
      requires Valid() && reg < 8
      requires Fits(memory.layout, registers[ESP], DW)
      modifies this, registers
      ensures Valid()
      ensures r.Ok? <==> Readable(memory.layout, old(registers[ESP]))
      ensures registers[..] ==
        if r.Ok?
        then old(registers[..])[ESP := Moved(old(registers[ESP]), 4)]
               [reg := Loaded(memory.layout, old(memory.Bytes()), old(registers[ESP]), DW)]
        else old(registers[..])
      ensures eip == if r.Ok? then (old(eip) + 1) % 0x1_0000_0000 else old(eip)
      ensures clockCycleCount == old(clockCycleCount)
      ensures OnStack(old(registers[ESP])) && reg != ESP ==>
        r.Ok? && Step(old(View()), Instr.Pop(reg)) == Some(View())
    {
      hide Load, Fits, OffsetOf, RegionOf, Loaded, Moved, PopValue, Readable;
      Words();
      var val := Pop();
      if val.Ok? {
        eip := AddNoCarry(32, eip, 1);
        registers[reg] := val.value;
        r := Ok(());
      } else {
        r := Wrong(val.fault);
      }
    }

    /** CALL: pushes the address of the next instruction. */
    method ExecCall(address: nat) returns (r: Access<()>)
      requires Valid() && address < ADDRESSES
      requires Fits(memory.layout, Moved(registers[ESP], -4), DW)
      modifies this, registers, memory.ram.bytes, memory.stack.bytes
      ensures Valid()
      ensures r.Ok? <==> Writable(memory.layout, Moved(old(registers[ESP]), -4))
      ensures registers[..] == old(registers[..])[ESP := Moved(old(registers[ESP]), -4)]
      ensures memory.Bytes() ==
        Written(memory.layout, old(memory.Bytes()), Moved(old(registers[ESP]), -4), (old(eip) + 1) % 0x1_0000_0000, DW)
      ensures eip == if r.Ok? then address else old(eip)
      ensures clockCycleCount == old(clockCycleCount)
      ensures OnStack(Moved(old(registers[ESP]), -4)) ==>
        r.Ok? && Step(old(View()), Instr.Call(address)) == Some(View())
    {
      hide Store, Fits, OffsetOf, RegionOf, Written, Moved, PushValue;
      Words();
      var next := AddNoCarry(32, eip, 1);
      r := Push(next);
      if r.Ok? {
        eip := address;
      }
    }

    /** RET: `ret` is what the operand asks to remove in addition, in bytes. */
    method ExecRet(op1: nat) returns (r: Access<()>, ret: nat)
      requires Valid() && op1 < ADDRESSES && Fits(memory.layout, registers[ESP], DW)
      modifies this, registers
      ensures Valid()
      ensures r.Ok? <==> Readable(memory.layout, old(registers[ESP]))
      ensures ret == if r.Ok? then (op1 + op1) % ADDRESSES else 0
      ensures registers[..] ==
        if r.Ok? then old(registers[..])[ESP := Moved(old(registers[ESP]), 4)] else old(registers[..])
      ensures eip ==
        if r.Ok? then Loaded(memory.layout, old(memory.Bytes()), old(registers[ESP]), DW) else old(eip)
      ensures clockCycleCount == old(clockCycleCount)
      ensures OnStack(old(registers[ESP])) ==> r.Ok? && Step(old(View()), Instr.Ret) == Some(View())
    {
      hide Load, Fits, OffsetOf, RegionOf, Loaded, Moved, PopValue, Readable;
      Words();
      ret := 0;
      var val := Pop();
      if val.Ok? {
        eip := val.value;
        if op1 != 0 {
          ret := AddNoCarry(32, op1, op1);
        }
        r := Ok(());
      } else {
        r := Wrong(val.fault);
      }
    }

    /** Jcc: no outcome for a bad condition code. */
    method ExecJcc(code: nat, target: nat, flags: Flags.Eflags) returns (jumped: Option<bool>)
      requires Valid() && target < ADDRESSES
      modifies `eip
      ensures Valid()
      ensures jumped == Flags.Condition(code, flags.value, registers[1])
      ensures eip == if jumped.None? then old(eip) else if jumped.value then target else (old(eip) + 1) % 0x1_0000_0000
    {
      Words();
      jumped := Flags.Condition(code, flags.value, registers[1]);
      if jumped.Some? {
        if jumped.value {
          eip := target;
        } else {
          eip := AddNoCarry(32, eip, 1);
        }
      }
    }

    /** SUB, followed by the step to the next instruction. */
    method ExecSub(op1: nat, size1: OpSize, op2: nat, size2: OpSize, flags: Flags.Eflags) returns (ret: nat)
      requires Valid() && flags.value < Pow2(32) && op1 < Pow2(32) && op2 < Pow2(32)
      modifies flags, `eip
      ensures Valid()
      ensures flags.value < Pow2(32) && eip == (old(eip) + 1) % 0x1_0000_0000
      ensures var operand2 := Instructions.SecondOperand(op2, size1, size2);
              && ret == Flags.Sub32(op1, operand2)
              && flags.value == Flags.StatusFlags(old(flags.value), Flags.Subtracted(op1, operand2, size1))
    {
      hide Flags.StatusFlags, Pow2, Instructions.SecondOperand;
      Words();
      ret := Instructions.ExecSub(op1, size1, op2, size2, flags);
      eip := AddNoCarry(32, eip, 1);
    }

    /** SUB on operands of one size and a conditional jump, from flags with the carry clear: the jump
        is taken exactly when the comparison that the condition names holds. */
    method SubThenJcc(code: nat, size: OpSize, a: nat, b: nat, target: nat, flags: Flags.Eflags)
      requires Valid() && target < ADDRESSES
      requires flags.value < Pow2(32) && !Bit(flags.value, Flags.CF)
      requires size != UNKNOWN && a < Pow2(8 * Width(size)) && b < Pow2(8 * Width(size))
      requires code in Flags.COMPARISONS
      modifies flags, `eip
      ensures eip == if Flags.Compares(code, 8 * Width(size), a, b) then target else (old(eip) + 2) % 0x1_0000_0000
    {
      hide Flags.StatusFlags, Flags.Condition, Flags.Sub32, Flags.Compares, Flags.Subtracted, Bit, Pow2, Next;
      Words();
      Pow2Mono(8 * Width(size), 32);
      ghost var before := flags.value;
      var _ := ExecSub(a, size, b, size, flags);
      Flags.SubCompares(before, size, a, b, code);
      Flags.ConditionIgnoresEcx(code, flags.value, registers[1]);
      NextFits(old(eip));
      var _ := ExecJcc(code, target, flags);
    }

    predicate EightOnStack(esp: nat) {
      BelowOnStack(memory.layout, esp, 8)
    }

    /** One pass through the PUSHA case: `repeat` asks for another cycle. */
    method PushaCycle(index: nat, savedEsp: nat) returns (r: Access<()>, repeat: bool)
      requires Valid() && index <= 7 && savedEsp < ADDRESSES
      requires Fits(memory.layout, Moved(registers[ESP], -4), DW)
      modifies registers, memory.ram.bytes, memory.stack.bytes
      ensures Valid() && repeat == (index != 7)
      ensures r.Ok? <==> Writable(memory.layout, Moved(old(registers[ESP]), -4))
      ensures registers[..] == old(registers[..])[ESP := Moved(old(registers[ESP]), -4)]
      ensures memory.Bytes() == Written(memory.layout, old(memory.Bytes()), Moved(old(registers[ESP]), -4),
                                 if index == 3 then savedEsp else old(registers[index]), DW)
      ensures OnStack(Moved(old(registers[ESP]), -4)) ==>
        && r.Ok?
        && PushaFrom(old(View()), index, savedEsp) ==
             if repeat then PushaFrom(View().(clock := clockCycleCount + 1), index + 1, savedEsp) else Some(View())
    {
      hide Store, Fits, OffsetOf, RegionOf, PushValue, PushaFrom, Moved, Written;
      ghost var before := View();
      var value := if index == 3 then savedEsp else registers[index];
      r := Push(value);
      if OnStack(registers[ESP]) {
        PushaUnfold(before, index, savedEsp, View());
      }
      repeat := index != 7;
    }

    /** The cycles of PUSHA: one push in each, with the ESP of the start kept aside. */
    method PushaCycles() returns (r: Access<()>)
      requires Valid() && FitsBelow(memory.layout, registers[ESP], 8)
      modifies `clockCycleCount, registers, memory.ram.bytes, memory.stack.bytes
      ensures Valid()
      ensures var (done, regs, m) :=
                PushaEffect(memory.layout, old(registers[..]), old(memory.Bytes()), 0, old(registers[ESP]));
              && (r.Ok? <==> done == 8)
              && registers[..] == regs && memory.Bytes() == m
              && clockCycleCount == old(clockCycleCount) + (if done == 8 then 7 else done)
    {
      hide Store, Fits, OffsetOf, RegionOf, PushaFrom, PushaEffect, FitsBelow, Moved, Written, Writable;
      ghost var esp0, clock0 := registers[ESP], clockCycleCount;
      ghost var effect := PushaEffect(memory.layout, registers[..], memory.Bytes(), 0, esp0);
      var index, repeat, savedEsp := 0, true, 0;
      r := Ok(());
      while repeat
        invariant Valid() && index <= 7 && clockCycleCount == clock0 + index
        invariant if index == 0 then repeat ==> registers[ESP] == esp0 else savedEsp == esp0
        invariant repeat ==> r.Ok? && FitsBelow(memory.layout, registers[ESP], 8 - index)
        invariant repeat ==>
          var rest := PushaEffect(memory.layout, registers[..], memory.Bytes(), index, esp0);
          effect == (index + rest.0, rest.1, rest.2)
        invariant !repeat ==> effect == (if r.Ok? then 8 else index, registers[..], memory.Bytes())
        invariant !repeat && r.Ok? ==> index == 7
        decreases repeat, 7 - index
      {
        if index == 0 {
          savedEsp := registers[ESP];
        }
        PushaEffectStep(memory.layout, registers[..], memory.Bytes(), index, esp0);
        r, repeat := PushaCycle(index, savedEsp);
        if r.Ok? && repeat {
          index := index + 1;
          clockCycleCount := clockCycleCount + 1;
        } else {
          repeat := false;
        }
      }
    }

    /** PUSHA */
    method ExecPusha() returns (r: Access<()>)
      requires Valid() && FitsBelow(memory.layout, registers[ESP], 8)
      modifies this, registers, memory.ram.bytes, memory.stack.bytes
      ensures Valid()
      ensures var (done, regs, m) :=
                PushaEffect(memory.layout, old(registers[..]), old(memory.Bytes()), 0, old(registers[ESP]));
              && (r.Ok? <==> done == 8)
              && registers[..] == regs && memory.Bytes() == m
              && clockCycleCount == old(clockCycleCount) + (if done == 8 then 7 else done)
      ensures eip == if r.Ok? then (old(eip) + 1) % 0x1_0000_0000 else old(eip)
      ensures EightOnStack(old(registers[ESP])) ==> r.Ok? && Stack.Pusha(old(View())) == Some(View())
    {
      hide PushaFrom, PushaEffect, FitsBelow, BelowOnStack;
      Words();
      if EightOnStack(registers[ESP]) {
        PushaOnStack(memory.layout, memory.Bytes(), View(), 0, registers[ESP]);
      }
      r := PushaCycles();
      if r.Ok? {
        eip := AddNoCarry(32, eip, 1);
      }
    }

    /** One pass through the POPA case. */
    method PopaCycle(index: nat) returns (r: Access<()>, repeat: bool)
      requires Valid() && index <= 7 && Fits(memory.layout, registers[ESP], DW)
      modifies registers
      ensures Valid() && repeat == (index != 7)
      ensures r.Ok? <==> Readable(memory.layout, old(registers[ESP]))
      ensures registers[..] ==
        if r.Ok? then Popped(memory.layout, old(registers[..]), old(memory.Bytes()), index) else old(registers[..])
    {
      hide Fits, Readable, Loaded, Moved;
      repeat := index != 7;
      var val := Pop();
      if val.Ok? {
        if index != 4 {
          registers[7 - index] := val.value;
        }
        r := Ok(());
      } else {
        r := Wrong(val.fault);
      }
    }

    /** The cycles of POPA: one pop in each.  The fourth value read is written to ESP, so where the
        later ones are read depends on it. */
    method PopaCycles() returns (r: Access<()>)
      requires Valid() && PopaFits(memory.layout, registers[..], memory.Bytes(), 0)
      modifies `clockCycleCount, registers
      ensures Valid()
      ensures var (done, regs) := PopaEffect(memory.layout, old(registers[..]), old(memory.Bytes()), 0);
              && (r.Ok? <==> done == 8)
              && registers[..] == regs
              && clockCycleCount == old(clockCycleCount) + (if done == 8 then 7 else done)
    {
      hide Fits, Readable, Popped, PopaEffect, PopaFits;
      ghost var clock0 := clockCycleCount;
      ghost var effect := PopaEffect(memory.layout, registers[..], memory.Bytes(), 0);
      var index, repeat := 0, true;
      r := Ok(());
      while repeat
        invariant Valid() && index <= 7 && clockCycleCount == clock0 + index
        invariant repeat ==> r.Ok? && PopaFits(memory.layout, registers[..], memory.Bytes(), index)
        invariant repeat ==>
          var rest := PopaEffect(memory.layout, registers[..], memory.Bytes(), index);
          effect == (index + rest.0, rest.1)
        invariant !repeat ==> effect == (if r.Ok? then 8 else index, registers[..]) && (r.Ok? ==> index == 7)
        decreases repeat, 7 - index
      {
        PopaEffectStep(memory.layout, registers[..], memory.Bytes(), index);
        r, repeat := PopaCycle(index);
        if r.Ok? && repeat {
          index := index + 1;
          clockCycleCount := clockCycleCount + 1;
        } else {
          repeat := false;
        }
      }
    }

    /** POPA */
    method ExecPopa() returns (r: Access<()>)
      requires Valid() && PopaFits(memory.layout, registers[..], memory.Bytes(), 0)
      modifies this, registers
      ensures Valid()
      ensures var (done, regs) := PopaEffect(memory.layout, old(registers[..]), old(memory.Bytes()), 0);
              && (r.Ok? <==> done == 8)
              && registers[..] == regs
              && clockCycleCount == old(clockCycleCount) + (if done == 8 then 7 else done)
      ensures eip == if r.Ok? then (old(eip) + 1) % 0x1_0000_0000 else old(eip)
      ensures StackVisible(memory.layout) && Stack.Popa(old(View())).Some? ==>
        r.Ok? && Stack.Popa(old(View())) == Some(View())
    {
      hide Fits, PopaFrom, StackVisible, PopaEffect, PopaFits;
      Words();
      if StackVisible(memory.layout) && PopaFrom(View(), 0).Some? {
        PopaOnStack(memory.layout, memory.Bytes(), View(), 0);
      }
      r := PopaCycles();
      if r.Ok? {
        eip := AddNoCarry(32, eip, 1);
      }
    }

    /** Any list of PUSH, POP, CALL and RET that stays in the stack: one after the other they are the
        run of the stack machine. */
    method RunCode(code: seq<Instr>)
      requires Valid() && StackVisible(memory.layout)
      requires forall i :: i in code ==> WellFormed(i) && Executable(i)
      requires Run(View(), code).Some?
      modifies this, registers, memory.ram.bytes, memory.stack.bytes
      ensures Valid() && Run(old(View()), code) == Some(View())
    {
      hide Fits, RegionOf, Step, StackVisible;
      ghost var m0 := View();
      assert code[0..] == code;
      for n := 0 to |code|
        invariant Valid()
        invariant Run(View(), code[n..]).Some? && Run(m0, code) == Run(View(), code[n..])
      {
        assert code[n..][0] == code[n] && code[n..][1..] == code[n + 1..];
        Execute(code[n]);
      }
    }

    method Execute(i: Instr)
      requires Valid() && StackVisible(memory.layout)
      requires WellFormed(i) && Executable(i) && Step(View(), i).Some?
      modifies this, registers, memory.ram.bytes, memory.stack.bytes
      ensures Valid() && Step(old(View()), i) == Some(View())
    {
      hide RegionOf, Fits, Load, Store;
      StaysInside(View(), i, memory.layout);
      match i {
        case Push(v) =>
          var _ := ExecPush(v);
        case Pop(reg) =>
          var _ := ExecPop(reg);
        case Call(target) =>
          var _ := ExecCall(target);
        case Ret =>
          var _, _ := ExecRet(0);
      }
    }

    /** Well-bracketed PUSH, POP, CALL and RET with room for their depth: ESP ends where it began, and
        the bytes from there on are unchanged. */
    method RunNested(c: Code)
      requires Valid() && StackVisible(memory.layout)
      requires WellBracketed(c) && forall i :: i in Flatten(c) ==> Executable(i)
      requires STACK_POS + 4 * Depth(c) <= registers[ESP] <= STACK_END
      modifies this, registers, memory.ram.bytes, memory.stack.bytes
      ensures Valid() && Run(old(View()), Flatten(c)) == Some(View())
      ensures registers[ESP] == old(registers[ESP])
      ensures memory.stack.bytes[registers[ESP] - STACK_POS..] == old(memory.stack.bytes[registers[ESP] - STACK_POS..])
    {
      hide Run, Flatten, Depth, WellBracketed, StackVisible;
      NestedCode(View(), c);
      RunCode(Flatten(c));
    }
  }

  /** The instructions that are methods above. */
  predicate Executable(i: Instr) {
    !i.Other? && (i.Call? ==> i.target < ADDRESSES)
  }

  /** An instruction that does not fault uses the stack below the end. */
  lemma StaysInside(m: Machine, i: Instr, l: Layout)
    requires m.Valid() && WellFormed(i) && Executable(i) && Step(m, i).Some? && StackVisible(l)
    ensures i.Push? || i.Call? ==>
      RegionOf(l, Moved(m.regs[ESP], -4)) == Region.Stack && Fits(l, Moved(m.regs[ESP], -4), DW)
    ensures i.Pop? || i.Ret? ==> RegionOf(l, m.regs[ESP]) == Region.Stack && Fits(l, m.regs[ESP], DW)
  {
    hide RegionOf, Fits, Load, Store;
    var esp := m.regs[ESP];
    if i.Push? || i.Call? {
      assert Moved(esp, -4) == esp - 4;
      assert RegionOf(l, esp - 4) == Region.Stack;
      StackAccess(l, esp - 4);
    } else {
      assert RegionOf(l, esp) == Region.Stack;
      StackAccess(l, esp);
    }
  }

  lemma WrittenOnStack(l: Layout, m: Contents, address: nat, v: nat)
    requires m.Valid() && Fits(l, address, DW) && RegionOf(l, address) == Region.Stack
    ensures STACK_POS <= address && address + 4 <= STACK_END
    ensures Written(l, m, address, v, DW) == m.(stack := Store(m.stack, address - STACK_POS, v, 4))
  {
  }

  lemma LoadedOnStack(l: Layout, m: Contents, address: nat)
    requires m.Valid() && Fits(l, address, DW) && RegionOf(l, address) == Region.Stack
    ensures STACK_POS <= address && address + 4 <= STACK_END
    ensures Loaded(l, m, address, DW) == Load(m.stack, address - STACK_POS, 4)
  {
  }

  lemma PushedView(m0: Machine, v: nat, esp: nat, m: Machine)
    requires m0.Valid() && m.Valid() && esp == Moved(m0.regs[ESP], -4) && STACK_POS <= esp && esp + 4 <= STACK_END
    requires m.regs == m0.regs[ESP := esp] && m.stack == Store(m0.stack, esp - STACK_POS, v, 4)
    requires m.eip == m0.eip && m.clock == m0.clock
    ensures PushValue(m0, v) == Some(m)
  {
    hide Store;
    assert m0.regs[ESP] == esp + 4;
  }

  lemma PoppedView(m0: Machine, m: Machine)
    requires m0.Valid() && m.Valid() && STACK_POS <= m0.regs[ESP] && m0.regs[ESP] + 4 <= STACK_END
    requires m == m0.(regs := m0.regs[ESP := Moved(m0.regs[ESP], 4)])
    ensures PopValue(m0) == Some((m, Load(m0.stack, m0.regs[ESP] - STACK_POS, 4)))
  {
    hide Load;
  }

  lemma DownByFour(esp: nat, r: nat)
    requires esp < ADDRESSES && r == (esp + 0xFFFF_FFFC) % ADDRESSES
    ensures r == Moved(esp, -4)
  {
  }

  lemma NextFits(eip: nat)
    ensures Next(eip) < ADDRESSES
  {
  }

  lemma MovedOn(esp: nat, k: nat)
    ensures Moved(Moved(esp, -4), -4 * k) == Moved(esp, -4 * (k + 1))
  {
    var q, r := (esp - 4) / ADDRESSES, (esp - 4) % ADDRESSES;
    var s, t := (r - 4 * k) / ADDRESSES, (r - 4 * k) % ADDRESSES;
    assert esp - 4 * (k + 1) == (q + s) * ADDRESSES + t;
    Arithmetic.DivModUnique(esp - 4 * (k + 1), ADDRESSES, q + s, t);
  }

  /** A 4-byte access in the stack region that fits lies in the stack. */
  lemma FitsInRegion(l: Layout, address: nat)
    requires Fits(l, address, DW)
    ensures 0 <= OffsetOf(l, address) && OffsetOf(l, address) + 4 <= STACK_SIZE
    ensures RegionOf(l, address) == Region.Stack ==>
      OffsetOf(l, address) == address - STACK_POS && STACK_POS <= address && address + 4 <= STACK_END
  {
  }
}
