/** The 32-bit stack instructions as steps of a machine whose stack is bytes in memory, and
    the machine with a list for a stack that it implements. */
module Stack {
  import opened Wrappers
  import opened Memory

  const ESP: nat := 4
  const STACK_END: nat := STACK_POS + STACK_SIZE

  /** Registers EAX, ECX, EDX, EBX, ESP, EBP, ESI, EDI; the bytes of the stack region. */
  datatype Machine = Machine(regs: seq<nat>, eip: nat, stack: seq<byte>, clock: nat) {
    predicate Valid() {
      && |regs| == 8 && |stack| == STACK_SIZE
      && (forall r :: 0 <= r < 8 ==> regs[r] < ADDRESSES)
    }
  }

  /** The next instruction, at addresses of 32 bits. */
  function Next(eip: nat): (r: nat)
    ensures eip < 0xFFFF_FFFF ==> r == eip + 1
    ensures eip == 0xFFFF_FFFF ==> r == 0
  {
    (eip + 1) % ADDRESSES
  }

  /** `push` of 4 bytes; none when it would leave the stack region. */
  function PushValue(m: Machine, v: nat): (r: Option<Machine>)
    requires m.Valid()
    ensures r.Some? ==> r.value.Valid()
  {
    var esp := m.regs[ESP];
    if STACK_POS + 4 <= esp <= STACK_END
    then Some(m.(regs := m.regs[ESP := esp - 4], stack := Store(m.stack, esp - 4 - STACK_POS, v, 4)))
    else None
  }

  /** `pop` of 4 bytes. */
  function PopValue(m: Machine): (r: Option<(Machine, nat)>)
    requires m.Valid()
    ensures r.Some? ==> r.value.0.Valid() && r.value.1 < ADDRESSES
  {
    var esp := m.regs[ESP];
    if STACK_POS <= esp && esp + 4 <= STACK_END
    then
      LoadBound(m.stack, esp - STACK_POS, 4);
      WordLimit();
      Some((m.(regs := m.regs[ESP := esp + 4]), Load(m.stack, esp - STACK_POS, 4)))
    else None
  }

  lemma WordLimit()
    ensures Limit(4) == ADDRESSES
  {
    assert Limit(2) == 0x1_0000;
  }

  /** Instructions as they are executed.  `Other` stands for any instruction that leaves ESP and the
      bytes from ESP on alone: it may change the other registers, jump, and write below ESP. */
  datatype Instr =
    | Push(v: nat)
    | Pop(reg: nat)
    | Call(target: nat)
    | Ret
    | Other(regs: seq<nat>, eip: nat, low: seq<byte>)

  predicate WellFormed(i: Instr) {
    match i
    case Push(v) => v < ADDRESSES
    case Pop(reg) => reg < 8 && reg != ESP
    case Call(target) => true
    case Ret => true
    case Other(regs, _, _) => |regs| == 8 && (forall r :: 0 <= r < 8 ==> regs[r] < ADDRESSES)
  }

  function Step(m: Machine, i: Instr): (r: Option<Machine>)
    requires m.Valid() && WellFormed(i)
    ensures r.Some? ==> r.value.Valid()
  {
    match i
    case Push(v) =>
      var p := PushValue(m, v);
      if p.None? then None else Some(p.value.(eip := Next(m.eip)))
    case Pop(reg) =>
      var p := PopValue(m);
      if p.None? then None
      else Some(p.value.0.(regs := p.value.0.regs[reg := p.value.1], eip := Next(m.eip)))
    case Call(target) =>
      var p := PushValue(m, Next(m.eip));
      if p.None? then None else Some(p.value.(eip := target))
    case Ret =>
      var p := PopValue(m);
      if p.None? then None else Some(p.value.0.(eip := p.value.1))
    case Other(regs, eip, low) =>
      var n := m.regs[ESP] - STACK_POS;
      Some(m.(regs := regs[ESP := m.regs[ESP]], eip := eip,
              stack := if |low| == n && n <= STACK_SIZE then low + m.stack[n..] else m.stack))
  }

  function Run(m: Machine, code: seq<Instr>): (r: Option<Machine>)
    requires m.Valid() && (forall i :: i in code ==> WellFormed(i))
    ensures r.Some? ==> r.value.Valid()
    decreases |code|
  {
    if code == [] then Some(m) else
    var m' := Step(m, code[0]);
    if m'.None? then None else Run(m'.value, code[1..])
  }

  // ---------------------------------------------------------------- the machine with a list

  datatype Ideal = Ideal(regs: seq<nat>, eip: nat, items: seq<nat>)

  /** One step; none on a pop from the empty list or beyond `room` items. */
  function IdealStep(a: Ideal, i: Instr, room: nat): (r: Option<Ideal>)
    requires |a.regs| == 8 && WellFormed(i)
    ensures r.Some? ==> |r.value.regs| == 8
  {
    var n := |a.items|;
    match i
    case Push(v) => if n < room then Some(a.(items := a.items + [v], eip := Next(a.eip))) else None
    case Call(target) => if n < room then Some(a.(items := a.items + [Next(a.eip)], eip := target)) else None
    case Pop(reg) =>
      if n > 0 then Some(a.(regs := a.regs[reg := a.items[n - 1]], items := a.items[..n - 1], eip := Next(a.eip)))
      else None
    case Ret => if n > 0 then Some(a.(eip := a.items[n - 1], items := a.items[..n - 1])) else None
    case Other(regs, eip, _) => Some(a.(regs := regs, eip := eip))
  }

  function IdealRun(a: Ideal, code: seq<Instr>, room: nat): (r: Option<Ideal>)
    requires |a.regs| == 8 && (forall i :: i in code ==> WellFormed(i))
    ensures r.Some? ==> |r.value.regs| == 8
    decreases |code|
  {
    if code == [] then Some(a) else
    var a' := IdealStep(a, code[0], room);
    if a'.None? then None else IdealRun(a'.value, code[1..], room)
  }

  /** `m` implements `a` with its items stored downwards from `base`, and `above` from there on. */
  predicate Implements(m: Machine, a: Ideal, base: nat, above: seq<byte>)
    requires m.Valid() && |a.regs| == 8
  {
    && STACK_POS + 4 * |a.items| <= base <= STACK_END
    && m.regs[ESP] == base - 4 * |a.items|
    && m.eip == a.eip
    && (forall r :: 0 <= r < 8 && r != ESP ==> m.regs[r] == a.regs[r])
    && (forall k :: 0 <= k < |a.items| ==> ItemAt(m.stack, base, k) == a.items[k])
    && m.stack[base - STACK_POS..] == above
  }

  /** The item number `k`, counted from the bottom. */
  function ItemAt(stack: seq<byte>, base: nat, k: nat): nat
    requires |stack| == STACK_SIZE && STACK_POS + 4 * (k + 1) <= base <= STACK_END
  {
    Load(stack, base - 4 * (k + 1) - STACK_POS, 4)
  }

  /** Writing the next item keeps the items and what is above. */
  lemma PushKeeps(stack: seq<byte>, base: nat, n: nat, v: nat)
    requires |stack| == STACK_SIZE && STACK_POS + 4 * (n + 1) <= base <= STACK_END && v < ADDRESSES
    ensures var s := Store(stack, base - 4 * (n + 1) - STACK_POS, v, 4);
            && ItemAt(s, base, n) == v
            && (forall k :: 0 <= k < n ==> ItemAt(s, base, k) == ItemAt(stack, base, k))
            && s[base - STACK_POS..] == stack[base - STACK_POS..]
  {
    hide Load, Store;
    var i, top := base - 4 * (n + 1) - STACK_POS, base - STACK_POS;
    var s := Store(stack, i, v, 4);
    LoadStore(stack, i, v, 4);
    WordLimit();
    forall k | 0 <= k < n
      ensures ItemAt(s, base, k) == ItemAt(stack, base, k)
    {
      LoadOther(stack, i, v, 4, base - 4 * (k + 1) - STACK_POS, 4);
    }
    forall j | top <= j < |stack|
      ensures s[j] == stack[j]
    {
      StoreFrame(stack, i, v, 4, j);
    }
    assert s[top..] == stack[top..];
  }

  lemma OtherKeeps(stack: seq<byte>, base: nat, n: nat, low: seq<byte>)
    requires |stack| == STACK_SIZE && STACK_POS + 4 * n <= base <= STACK_END && |low| == base - 4 * n - STACK_POS
    ensures var s := low + stack[|low|..];
            && |s| == |stack|
            && (forall k :: 0 <= k < n ==> ItemAt(s, base, k) == ItemAt(stack, base, k))
            && s[base - STACK_POS..] == stack[base - STACK_POS..]
  {
    var s := low + stack[|low|..];
    forall k | 0 <= k < n
      ensures ItemAt(s, base, k) == ItemAt(stack, base, k)
    {
      LoadDepends(s, stack, base - 4 * (k + 1) - STACK_POS, 4);
    }
  }

  lemma StepImplements(m: Machine, a: Ideal, i: Instr, base: nat, above: seq<byte>, room: nat)
    requires m.Valid() && |a.regs| == 8 && WellFormed(i) && Implements(m, a, base, above)
    requires STACK_POS + 4 * room <= base
    requires IdealStep(a, i, room).Some?
    ensures Step(m, i).Some? && Implements(Step(m, i).value, IdealStep(a, i, room).value, base, above)
  {
    hide Load, Store;
    var n := |a.items|;
    match i
    case Push(v) => PushKeeps(m.stack, base, n, v);
    case Call(target) => PushKeeps(m.stack, base, n, Next(m.eip));
    case Pop(reg) => assert m.regs[ESP] - STACK_POS == base - 4 * n - STACK_POS;
    case Ret => assert m.regs[ESP] - STACK_POS == base - 4 * n - STACK_POS;
    case Other(_, _, low) =>
      if |low| == m.regs[ESP] - STACK_POS {
        OtherKeeps(m.stack, base, n, low);
      }
  }

  /** Refinement over whole runs: every run of the machine with a list that has room for its
      items is a run of the machine with bytes, and the bytes above never change. */
  lemma {:induction false} RunImplements(m: Machine, a: Ideal, code: seq<Instr>, base: nat, above: seq<byte>, room: nat)
    requires m.Valid() && |a.regs| == 8 && (forall i :: i in code ==> WellFormed(i))
    requires Implements(m, a, base, above) && STACK_POS + 4 * room <= base
    requires IdealRun(a, code, room).Some?
    ensures Run(m, code).Some? && Implements(Run(m, code).value, IdealRun(a, code, room).value, base, above)
    decreases |code|
  {
    hide Implements, Step, IdealStep;
    if code != [] {
      StepImplements(m, a, code[0], base, above, room);
      RunImplements(Step(m, code[0]).value, IdealStep(a, code[0], room).value, code[1..], base, above, room);
    }
  }

  // ---------------------------------------------------------------- well-bracketed code

  /** Code in which each PUSH has its POP and each CALL its RET, nested to any depth. */
  datatype Code =
    | Done
    | Plain(other: Instr, rest: Code)
    | Pushed(v: nat, body: Code, reg: nat, rest: Code)
    | Called(target: nat, body: Code, rest: Code)

  predicate WellBracketed(c: Code) {
    match c
    case Done => true
    case Plain(other, rest) => other.Other? && WellFormed(other) && WellBracketed(rest)
    case Pushed(v, body, reg, rest) =>
      WellFormed(Push(v)) && WellFormed(Pop(reg)) && WellBracketed(body) && WellBracketed(rest)
    case Called(_, body, rest) => WellBracketed(body) && WellBracketed(rest)
  }

  function Flatten(c: Code): (r: seq<Instr>)
    requires WellBracketed(c)
    ensures forall i :: i in r ==> WellFormed(i)
  {
    match c
    case Done => []
    case Plain(other, rest) => [other] + Flatten(rest)
    case Pushed(v, body, reg, rest) => [Push(v)] + Flatten(body) + [Pop(reg)] + Flatten(rest)
    case Called(target, body, rest) => [Call(target)] + Flatten(body) + [Ret] + Flatten(rest)
  }

  function Max(a: nat, b: nat): nat {
    if a < b then b else a
  }

  /** The most items that are on the stack at once. */
  function Depth(c: Code): nat {
    match c
    case Done => 0
    case Plain(_, rest) => Depth(rest)
    case Pushed(_, body, _, rest) => Max(1 + Depth(body), Depth(rest))
    case Called(_, body, rest) => Max(1 + Depth(body), Depth(rest))
  }

  lemma {:induction false} IdealRunAppend(a: Ideal, x: seq<Instr>, y: seq<Instr>, room: nat)
    requires |a.regs| == 8 && (forall i :: i in x ==> WellFormed(i)) && (forall i :: i in y ==> WellFormed(i))
    ensures IdealRun(a, x + y, room) ==
      (if IdealRun(a, x, room).None? then None else IdealRun(IdealRun(a, x, room).value, y, room))
    decreases |x|
  {
    hide IdealStep;
    if x == [] {
      assert x + y == y;
    } else {
      assert (x + y)[1..] == x[1..] + y;
      var a' := IdealStep(a, x[0], room);
      if a'.Some? {
        IdealRunAppend(a'.value, x[1..], y, room);
      }
    }
  }

  lemma IdealRunOne(a: Ideal, i: Instr, room: nat)
    requires |a.regs| == 8 && WellFormed(i)
    ensures IdealRun(a, [i], room) == IdealStep(a, i, room)
  {
    var a' := IdealStep(a, i, room);
    if a'.Some? {
      assert IdealRun(a'.value, [], room) == a';
    }
  }

  /** Opening, body, closing. */
  lemma IdealRunThree(a: Ideal, open: Instr, body: seq<Instr>, close: Instr, room: nat)
    requires |a.regs| == 8 && WellFormed(open) && WellFormed(close) && (forall i :: i in body ==> WellFormed(i))
    requires IdealStep(a, open, room).Some?
    requires IdealRun(IdealStep(a, open, room).value, body, room).Some?
    ensures IdealRun(a, [open] + body + [close], room)
         == IdealStep(IdealRun(IdealStep(a, open, room).value, body, room).value, close, room)
  {
    hide IdealStep, IdealRun;
    IdealRunAppend(a, [open] + body, [close], room);
    IdealRunAppend(a, [open], body, room);
    IdealRunOne(a, open, room);
    IdealRunOne(IdealRun(IdealStep(a, open, room).value, body, room).value, close, room);
  }

  /** A bracket whose body is balanced: the list is as before, and the closing instruction got
      what the opening one put there. */
  lemma {:induction false} BracketIsBalanced(a: Ideal, open: Instr, body: Code, close: Instr, room: nat)
    requires |a.regs| == 8 && WellFormed(open) && WellFormed(close) && WellBracketed(body)
    requires open.Push? || open.Call?
    requires close.Pop? || close.Ret?
    requires |a.items| + 1 + Depth(body) <= room
    ensures var r := IdealRun(a, [open] + Flatten(body) + [close], room);
            && r.Some? && r.value.items == a.items
            && var v := if open.Push? then open.v else Next(a.eip);
               if close.Pop? then r.value.regs[close.reg] == v else r.value.eip == v
    decreases body, 2
  {
    var a1 := IdealStep(a, open, room).value;
    CodeIsBalanced(a1, body, room);
    IdealRunThree(a, open, Flatten(body), close, room);
    hide IdealRun;
    var a2 := IdealRun(a1, Flatten(body), room).value;
    assert a2.items[..|a.items|] == a.items;
  }

  lemma {:induction false} CodeIsBalanced(a: Ideal, c: Code, room: nat)
    requires |a.regs| == 8 && WellBracketed(c) && |a.items| + Depth(c) <= room
    ensures IdealRun(a, Flatten(c), room).Some? && IdealRun(a, Flatten(c), room).value.items == a.items
    decreases c, 1
  {
    match c
    case Done =>
    case Plain(other, rest) =>
      IdealRunAppend(a, [other], Flatten(rest), room);
      IdealRunOne(a, other, room);
      CodeIsBalanced(IdealStep(a, other, room).value, rest, room);
    case Pushed(v, body, reg, rest) =>
      BracketThenRest(a, c, Push(v), body, Pop(reg), rest, room);
    case Called(target, body, rest) =>
      BracketThenRest(a, c, Call(target), body, Ret, rest, room);
  }

  lemma {:induction false} BracketThenRest(
      a: Ideal, c: Code, open: Instr, body: Code, close: Instr, rest: Code, room: nat)
    requires (c.Pushed? || c.Called?) && c.body == body && c.rest == rest
    requires |a.regs| == 8 && WellFormed(open) && WellFormed(close) && WellBracketed(body) && WellBracketed(rest)
    requires open.Push? || open.Call?
    requires close.Pop? || close.Ret?
    requires |a.items| + 1 + Depth(body) <= room && |a.items| + Depth(rest) <= room
    ensures var r := IdealRun(a, [open] + Flatten(body) + [close] + Flatten(rest), room);
            r.Some? && r.value.items == a.items
    decreases c, 0
  {
    hide IdealRun;
    BracketIsBalanced(a, open, body, close, room);
    IdealRunAppend(a, [open] + Flatten(body) + [close], Flatten(rest), room);
    CodeIsBalanced(IdealRun(a, [open] + Flatten(body) + [close], room).value, rest, room);
  }

  lemma StartImplements(m: Machine)
    requires m.Valid() && STACK_POS <= m.regs[ESP] <= STACK_END
    ensures Implements(m, Ideal(m.regs, m.eip, []), m.regs[ESP], m.stack[m.regs[ESP] - STACK_POS..])
  {
  }

  /** Stack discipline: well-bracketed code with room for its depth runs without a fault, ends
      with ESP where it began, and leaves every byte from there on unchanged. */
  lemma NestedCode(m: Machine, c: Code)
    requires m.Valid() && WellBracketed(c)
    requires STACK_POS + 4 * Depth(c) <= m.regs[ESP] <= STACK_END
    ensures var r := Run(m, Flatten(c));
            && r.Some? && r.value.regs[ESP] == m.regs[ESP]
            && r.value.stack[m.regs[ESP] - STACK_POS..] == m.stack[m.regs[ESP] - STACK_POS..]
  {
    hide IdealRun, Run;
    var a, base := Ideal(m.regs, m.eip, []), m.regs[ESP];
    StartImplements(m);
    CodeIsBalanced(a, c, Depth(c));
    RunImplements(m, a, Flatten(c), base, m.stack[base - STACK_POS..], Depth(c));
  }

  /** A RET resumes after its CALL, and a POP yields the value of its PUSH, whatever well-bracketed
      code ran in between. */
  lemma BracketResult(m: Machine, open: Instr, body: Code, close: Instr)
    requires m.Valid() && WellFormed(open) && WellFormed(close) && WellBracketed(body)
    requires (open.Push? && close.Pop?) || (open.Call? && close.Ret?)
    requires STACK_POS + 4 * (1 + Depth(body)) <= m.regs[ESP] <= STACK_END
    ensures var r := Run(m, [open] + Flatten(body) + [close]);
            && r.Some? && r.value.regs[ESP] == m.regs[ESP]
            && (close.Pop? ==> r.value.regs[close.reg] == open.v)
            && (close.Ret? ==> r.value.eip == (m.eip + 1) % 0x1_0000_0000)
  {
    hide IdealRun, Run;
    var a, base := Ideal(m.regs, m.eip, []), m.regs[ESP];
    var room := 1 + Depth(body);
    StartImplements(m);
    BracketIsBalanced(a, open, body, close, room);
    RunImplements(m, a, [open] + Flatten(body) + [close], base, m.stack[base - STACK_POS..], room);
  }

  // ---------------------------------------------------------------- PUSHA and POPA

  /** The iterations of PUSHA from `index` on; the one for index 3 pushes the saved ESP. */
  function PushaFrom(m: Machine, index: nat, savedEsp: nat): (r: Option<Machine>)
    requires m.Valid() && index <= 7
    ensures r.Some? ==> r.value.Valid()
    decreases 7 - index
  {
    var p := PushValue(m, if index == 3 then savedEsp else m.regs[index]);
    if p.None? || index == 7 then p
    else PushaFrom(p.value.(clock := m.clock + 1), index + 1, savedEsp)
  }

  function Pusha(m: Machine): (r: Option<Machine>)
    requires m.Valid()
    ensures r.Some? ==> r.value.Valid()
  {
    var p := PushaFrom(m, 0, m.regs[ESP]);
    if p.None? then None else Some(p.value.(eip := Next(m.eip)))
  }

  /** The iterations of POPA from `index` on; the one for index 4 drops its value. */
  function PopaFrom(m: Machine, index: nat): (r: Option<Machine>)
    requires m.Valid() && index <= 7
    ensures r.Some? ==> r.value.Valid()
    decreases 7 - index
  {
    var p := PopValue(m);
    if p.None? then None else
    var m' := if index == 4 then p.value.0 else p.value.0.(regs := p.value.0.regs[7 - index := p.value.1]);
    if index == 7 then Some(m') else PopaFrom(m'.(clock := m.clock + 1), index + 1)
  }

  function Popa(m: Machine): (r: Option<Machine>)
    requires m.Valid()
    ensures r.Some? ==> r.value.Valid()
  {
    var p := PopaFrom(m, 0);
    if p.None? then None else Some(p.value.(eip := Next(m.eip)))
  }

  lemma PushaUnfold(m: Machine, index: nat, savedEsp: nat, m': Machine)
    requires m.Valid() && index <= 7
    requires PushValue(m, if index == 3 then savedEsp else m.regs[index]) == Some(m')
    ensures PushaFrom(m, index, savedEsp) ==
      if index == 7 then Some(m') else PushaFrom(m'.(clock := m.clock + 1), index + 1, savedEsp)
  {
  }

  lemma PopaUnfold(m: Machine, index: nat)
    requires m.Valid() && index <= 7
    ensures PopaFrom(m, index).Some? ==> PopValue(m).Some?
    ensures PopValue(m).Some? ==>
            var p := PopValue(m).value;
            var m' := if index == 4 then p.0 else p.0.(regs := p.0.regs[7 - index := p.1]);
            PopaFrom(m, index) == if index == 7 then Some(m') else PopaFrom(m'.(clock := m.clock + 1), index + 1)
  {
  }

  /** What PUSHA writes at each index: at 3 the ESP of the start instead of EBX, at 4 the ESP
      of that moment. */
  function Saved(m: Machine, j: nat): int
    requires m.Valid() && j <= 7
  {
    if j == 3 then m.regs[ESP] else if j == 4 then (m.regs[ESP] as int) - 16 else m.regs[j]
  }

  /** The state of PUSHA before iteration `index`. */
  predicate Pushing(m0: Machine, m: Machine, index: nat)
    requires m0.Valid() && m.Valid() && index <= 8
  {
    var base := m0.regs[ESP];
    && STACK_POS + 32 <= base <= STACK_END
    && m.regs == m0.regs[ESP := base - 4 * index]
    && m.eip == m0.eip
    && (forall j :: 0 <= j < index ==> ItemAt(m.stack, base, j) == Saved(m0, j))
    && m.stack[base - STACK_POS..] == m0.stack[base - STACK_POS..]
  }

  lemma {:induction false} PushaRuns(m0: Machine, m: Machine, index: nat)
    requires m0.Valid() && m.Valid() && index <= 7 && Pushing(m0, m, index)
    ensures var r := PushaFrom(m, index, m0.regs[ESP]);
            r.Some? && Pushing(m0, r.value, 8) && r.value.clock == m.clock + (7 - index)
    decreases 7 - index
  {
    hide Load, Store;
    var v := if index == 3 then m0.regs[ESP] else m.regs[index];
    PushKeeps(m.stack, m0.regs[ESP], index, v);
    if index < 7 {
      PushaRuns(m0, PushValue(m, v).value.(clock := m.clock + 1), index + 1);
    }
  }

  /** The state of POPA before iteration `index`, for registers saved from `m0`: `m1` is the
      state in which POPA started. */
  predicate Popping(m0: Machine, m1: Machine, m: Machine, index: nat)
    requires m0.Valid() && m1.Valid() && m.Valid() && index <= 8
  {
    && m.regs[ESP] == m0.regs[ESP] - 32 + 4 * index
    && m.eip == m1.eip && m.stack == m1.stack
    && forall r :: 0 <= r < 8 && r != ESP ==>
         m.regs[r] == if r >= 8 - index && r != 3 then m0.regs[r] else m1.regs[r]
  }

  /** The 32 bytes below the ESP of `m0` hold what PUSHA put there, but for the value that POPA drops. */
  predicate SavedIntact(m0: Machine, m: Machine)
    requires m0.Valid() && m.Valid()
  {
    && STACK_POS + 32 <= m0.regs[ESP] <= STACK_END
    && forall j :: 0 <= j < 8 && j != 3 ==> ItemAt(m.stack, m0.regs[ESP], j) == Saved(m0, j)
  }

  lemma {:induction false} PopaRuns(m0: Machine, m1: Machine, m: Machine, index: nat)
    requires m0.Valid() && m1.Valid() && m.Valid() && index <= 7
    requires SavedIntact(m0, m1) && Popping(m0, m1, m, index)
    ensures var r := PopaFrom(m, index);
            r.Some? && Popping(m0, m1, r.value, 8) && r.value.clock == m.clock + (7 - index)
    decreases 7 - index
  {
    hide Load;
    var p := PopValue(m).value;
    assert index != 4 ==> p.1 == ItemAt(m1.stack, m0.regs[ESP], 7 - index);
    var m' := if index == 4 then p.0 else p.0.(regs := p.0.regs[7 - index := p.1]);
    assert Popping(m0, m1, m', index + 1);
    if index < 7 {
      PopaRuns(m0, m1, m'.(clock := m.clock + 1), index + 1);
    }
  }

  /** PUSHA saves, and POPA restores: if ESP and the 32 saved bytes are as PUSHA left them, POPA
      gives back EAX, ECX, EDX, EBP, ESI, EDI and ESP, whatever the registers were in between.
      EBX is not saved: it keeps the value it has.  Each takes 7 cycles more. */
  lemma PopaRestores(m0: Machine, m1: Machine)
    requires m0.Valid() && m1.Valid()
    requires STACK_POS + 32 <= m0.regs[ESP] <= STACK_END
    ensures Pusha(m0).Some?
    ensures var p := Pusha(m0).value;
            && p.regs == m0.regs[ESP := m0.regs[ESP] - 32]
            && p.eip == (m0.eip + 1) % 0x1_0000_0000 && p.clock == m0.clock + 7
            && p.stack[m0.regs[ESP] - STACK_POS..] == m0.stack[m0.regs[ESP] - STACK_POS..]
            && (m1.regs[ESP] == p.regs[ESP]
                && m1.stack[m0.regs[ESP] - 32 - STACK_POS..m0.regs[ESP] - STACK_POS]
                   == p.stack[m0.regs[ESP] - 32 - STACK_POS..m0.regs[ESP] - STACK_POS]
                ==>
                var r := Popa(m1);
                && r.Some? && r.value.regs == m0.regs[3 := m1.regs[3]]
                && r.value.eip == (m1.eip + 1) % 0x1_0000_0000 && r.value.clock == m1.clock + 7
                && r.value.stack == m1.stack)
  {
    hide PushaFrom, PopaFrom;
    var base := m0.regs[ESP];
    PushaRuns(m0, m0, 0);
    var p := Pusha(m0).value;
    var lo, hi := base - 32 - STACK_POS, base - STACK_POS;
    if m1.regs[ESP] == p.regs[ESP] && m1.stack[lo..hi] == p.stack[lo..hi] {
      SameBytesSameItems(m1.stack, p.stack, base);
      PopaRuns(m0, m1, m1, 0);
      assert Popa(m1).value.regs == m0.regs[3 := m1.regs[3]];
    }
  }

  /** The layout of the 32 bytes after PUSHA, from the top: EAX, ECX, EDX, the ESP of the start where EBX
      belongs, the ESP of that moment, EBP, ESI, EDI. */
  lemma PushaLayout(m: Machine)
    requires m.Valid() && STACK_POS + 32 <= m.regs[4] <= STACK_END
    ensures Pusha(m).Some?
    ensures var p, at := Pusha(m).value, m.regs[4] - STACK_POS;
            && p.regs == m.regs[4 := m.regs[4] - 32]
            && Load(p.stack, at - 4, 4) == m.regs[0] && Load(p.stack, at - 8, 4) == m.regs[1]
            && Load(p.stack, at - 12, 4) == m.regs[2] && Load(p.stack, at - 16, 4) == m.regs[4]
            && Load(p.stack, at - 20, 4) == m.regs[4] - 16 && Load(p.stack, at - 24, 4) == m.regs[5]
            && Load(p.stack, at - 28, 4) == m.regs[6] && Load(p.stack, at - 32, 4) == m.regs[7]
  {
    hide PushaFrom, Load;
    PushaRuns(m, m, 0);
    var s, base := Pusha(m).value.stack, m.regs[4];
    assert ItemAt(s, base, 0) == m.regs[0] && ItemAt(s, base, 1) == m.regs[1];
    assert ItemAt(s, base, 2) == m.regs[2] && ItemAt(s, base, 3) == m.regs[4];
    assert ItemAt(s, base, 4) == m.regs[4] - 16 && ItemAt(s, base, 5) == m.regs[5];
    assert ItemAt(s, base, 6) == m.regs[6] && ItemAt(s, base, 7) == m.regs[7];
  }

  /** What POPA makes of any 32 bytes whose place for ESP holds the ESP of that moment: from the bottom
      EDI, ESI, EBP, ESP, a value that is dropped, EDX, ECX, EAX. */
  lemma PopaReads(m: Machine)
    requires m.Valid() && STACK_POS <= m.regs[4] && m.regs[4] + 32 <= STACK_END
    requires Load(m.stack, m.regs[4] - STACK_POS + 12, 4) == m.regs[4] + 16
    ensures var r, s, at := Popa(m), m.stack, m.regs[4] - STACK_POS;
            && r.Some? && r.value.stack == s
            && r.value.regs == [Load(s, at + 28, 4), Load(s, at + 24, 4), Load(s, at + 20, 4), m.regs[3],
                                m.regs[4] + 32, Load(s, at + 8, 4), Load(s, at + 4, 4), Load(s, at, 4)]
  {
    hide PopaFrom, Load;
    var s, at := m.stack, m.regs[4] - STACK_POS;
    forall i: nat | i + 4 <= |s|
      ensures Load(s, i, 4) < ADDRESSES
    {
      LoadBound(s, i, 4);
      WordLimit();
    }
    var m0 := m.(regs := [Load(s, at + 28, 4), Load(s, at + 24, 4), Load(s, at + 20, 4), m.regs[3],
                          m.regs[4] + 32, Load(s, at + 8, 4), Load(s, at + 4, 4), Load(s, at, 4)]);
    PopaRuns(m0, m, m, 0);
    assert Popa(m).value.regs == m0.regs;
  }

  /** PUSHA, any well-bracketed code with room for its depth, POPA: no fault, all registers but EBX
      as at the start, and the bytes from the first ESP on unchanged. */
  lemma PushaCodePopa(m: Machine, c: Code)
    requires m.Valid() && WellBracketed(c)
    requires STACK_POS + 32 + 4 * Depth(c) <= m.regs[ESP] <= STACK_END
    ensures Pusha(m).Some? && Run(Pusha(m).value, Flatten(c)).Some?
    ensures var m1 := Run(Pusha(m).value, Flatten(c)).value;
            var r := Popa(m1);
            && r.Some? && r.value.regs == m.regs[3 := m1.regs[3]] && r.value.eip == (m1.eip + 1) % 0x1_0000_0000
            && r.value.stack[m.regs[ESP] - STACK_POS..] == m.stack[m.regs[ESP] - STACK_POS..]
  {
    hide Pusha, Popa, Run, Flatten, Depth, WellBracketed;
    var lo, hi := m.regs[ESP] - 32 - STACK_POS, m.regs[ESP] - STACK_POS;
    PopaRestores(m, m);
    var p := Pusha(m).value;
    NestedCode(p, c);
    var m1 := Run(p, Flatten(c)).value;
    SuffixParts(m1.stack, p.stack, lo, hi);
    PopaRestores(m, m1);
  }

  lemma SuffixParts(s: seq<byte>, t: seq<byte>, lo: nat, hi: nat)
    requires lo <= hi <= |s| == |t| && s[lo..] == t[lo..]
    ensures s[lo..hi] == t[lo..hi] && s[hi..] == t[hi..]
  {
    forall i | lo <= i < |s|
      ensures s[i] == t[i]
    {
      assert s[lo..][i - lo] == t[lo..][i - lo];
    }
  }

  lemma SameBytesSameItems(s: seq<byte>, t: seq<byte>, base: nat)
    requires |s| == |t| == STACK_SIZE && STACK_POS + 32 <= base <= STACK_END
    requires s[base - 32 - STACK_POS..base - STACK_POS] == t[base - 32 - STACK_POS..base - STACK_POS]
    ensures forall j :: 0 <= j < 8 ==> ItemAt(s, base, j) == ItemAt(t, base, j)
  {
    var lo, hi := base - 32 - STACK_POS, base - STACK_POS;
    forall x | lo <= x < hi
      ensures s[x] == t[x]
    {
      assert s[lo..hi][x - lo] == t[lo..hi][x - lo];
    }
    forall j | 0 <= j < 8
      ensures ItemAt(s, base, j) == ItemAt(t, base, j)
    {
      LoadDepends(s, t, base - 4 * (j + 1) - STACK_POS, 4);
    }
  }
}
