/** Byte-addressed little-endian memory and its regions. */
module Memory {
  import opened Arithmetic
  import opened Bits
  import opened DataTypes
  import opened Wrappers

  type byte = n: nat | n < 0x100

  // ---------------------------------------------------------------- little-endian numbers

  /** The number in `n` bytes from `i` on, lowest byte first. */
  function Load(bytes: seq<byte>, i: nat, n: nat): nat
    requires i + n <= |bytes|
    decreases n
  {
    if n == 0 then 0 else bytes[i] + 0x100 * Load(bytes, i + 1, n - 1)
  }

  /** The bytes with the low `n` bytes of `v` from `i` on. */
  function Store(bytes: seq<byte>, i: nat, v: nat, n: nat): (r: seq<byte>)
    requires i + n <= |bytes|
    ensures |r| == |bytes|
    decreases n
  {
    if n == 0 then bytes else Store(bytes[i := v % 0x100], i + 1, v / 0x100, n - 1)
  }

  /** A store changes its own bytes only. */
  lemma {:induction false} StoreFrame(bytes: seq<byte>, i: nat, v: nat, n: nat, j: nat)
    requires i + n <= |bytes| && j < |bytes| && (j < i || i + n <= j)
    ensures Store(bytes, i, v, n)[j] == bytes[j]
    decreases n
  {
    if n > 0 {
      StoreFrame(bytes[i := v % 0x100], i + 1, v / 0x100, n - 1, j);
    }
  }

  lemma {:induction false} LoadDepends(a: seq<byte>, b: seq<byte>, i: nat, n: nat)
    requires i + n <= |a| && i + n <= |b|
    requires forall j :: i <= j < i + n ==> a[j] == b[j]
    ensures Load(a, i, n) == Load(b, i, n)
    decreases n
  {
    if n > 0 {
      LoadDepends(a, b, i + 1, n - 1);
    }
  }

  /** Reading back what was written gives the value, cut to the size. */
  lemma {:induction false} LoadStore(bytes: seq<byte>, i: nat, v: nat, n: nat)
    requires i + n <= |bytes|
    ensures Load(Store(bytes, i, v, n), i, n) == v % Limit(n)
    ensures n == 4 ==> Load(Store(bytes, i, v, n), i, n) == v % 0x1_0000_0000
    decreases n
  {
    if n > 0 {
      LoadStore(bytes[i := v % 0x100], i + 1, v / 0x100, n - 1);
      StoreFrame(bytes[i := v % 0x100], i + 1, v / 0x100, n - 1, i);
      LimitStep(v, n);
      assert Limit(2) == 0x1_0000;
    } else {
      assert Limit(0) == 1;
    }
  }

  function Limit(n: nat): (r: nat)
    ensures r > 0
  {
    if n == 0 then 1 else 0x100 * Limit(n - 1)
  }

  lemma LimitStep(v: nat, n: nat)
    requires n > 0
    ensures v % Limit(n) == v % 0x100 + 0x100 * (v / 0x100 % Limit(n - 1))
  {
    var m, h := Limit(n - 1), v / 0x100;
    var q, r := h / m, h % m;
    assert h == q * m + r;
    assert v == q * (0x100 * m) + (v % 0x100 + 0x100 * r);
    DivModUnique(v, 0x100 * m, q, v % 0x100 + 0x100 * r);
  }

  /** A store somewhere else does not change what is read. */
  lemma LoadOther(bytes: seq<byte>, i: nat, v: nat, n: nat, j: nat, k: nat)
    requires i + n <= |bytes| && j + k <= |bytes| && (j + k <= i || i + n <= j)
    ensures Load(Store(bytes, i, v, n), j, k) == Load(bytes, j, k)
  {
    forall x | j <= x < j + k
      ensures Store(bytes, i, v, n)[x] == bytes[x]
    {
      StoreFrame(bytes, i, v, n, x);
    }
    LoadDepends(Store(bytes, i, v, n), bytes, j, k);
  }

  lemma {:induction false} LoadBound(bytes: seq<byte>, i: nat, n: nat)
    requires i + n <= |bytes|
    ensures Load(bytes, i, n) < Limit(n)
    decreases n
  {
    if n > 0 {
      LoadBound(bytes, i + 1, n - 1);
    }
  }

  // ---------------------------------------------------------------- bytes of a word

  /** `(value & (0xFF << k)) >> k` */
  lemma {:induction false} ByteOf(v: nat, k: nat)
    ensures Shr(And(v, Shl(0xFF, k)), k) == Shr(v, k) % 0x100
    decreases k
  {
    if k == 0 {
      assert Pow2(8) == 0x100;
      LowBitsMask(v, 8);
    } else {
      var m := And(v, Shl(0xFF, k));
      AndEven(v, Shl(0xFF, k - 1));
      ShrHalf(m, k);
      ShrHalf(v, k);
      ByteOf(v / 2, k - 1);
    }
  }

  lemma AndEven(v: nat, m: nat)
    ensures And(v, 2 * m) == 2 * And(v / 2, m)
  {
    AndZero(m);
    AndZero(2 * m);
    assert 2 * m / 2 == m && 2 * m % 2 == 0;
    if v > 0 {
      assert And(v, 2 * m) == 2 * And(v / 2, m) + Num(false);
    }
  }

  /** `ReadMemoryInterface` and `ReadWriteMemoryInterface`: an array of bytes.  Addresses are
      relative to the array, and are not checked. */
  class ReadWriteMemoryInterface {
    const bytes: array<byte>

    constructor (bytes: array<byte>)
      ensures this.bytes == bytes
    {
      this.bytes := bytes;
    }

    method Read(address: nat, size: OpSize) returns (r: Option<nat>)
      requires address + Width(size) <= bytes.Length
      ensures r.None? <==> size == UNKNOWN
      ensures r.Some? ==> r.value == Load(bytes[..], address, Width(size))
      ensures size == B ==> r == Some(bytes[address] as nat)
      ensures size == W ==> r == Some((bytes[address] as nat) + 0x100 * (bytes[address + 1] as nat))
      ensures size == DW ==>
        r == Some((bytes[address] as nat) + 0x100 * (bytes[address + 1] as nat)
                  + 0x1_0000 * (bytes[address + 2] as nat) + 0x100_0000 * (bytes[address + 3] as nat))
    {
      hide Or, Shl;
      match size
      case B =>
        r := Some(bytes[address]);
        LoadByte(bytes[..], address);
      case W =>
        WordOr(bytes[address], bytes[address + 1]);
        LoadWord(bytes[..], address);
        r := Some(Or(Shl(bytes[address + 1], 8), bytes[address]));
      case DW =>
        DoubleWordOr(bytes[address], bytes[address + 1], bytes[address + 2], bytes[address + 3]);
        LoadDoubleWord(bytes[..], address);
        r := Some(Or(Or(Or(Shl(bytes[address + 3], 24), Shl(bytes[address + 2], 16)),
                        Shl(bytes[address + 1], 8)), bytes[address]));
      case UNKNOWN =>
        r := None;
    }

    method Write(address: nat, value: nat, size: OpSize) returns (ok: bool)
      requires address + Width(size) <= bytes.Length
      modifies bytes
      ensures ok <==> size != UNKNOWN
      ensures bytes[..] == Store(old(bytes[..]), address, value, Width(size))
      ensures ok ==> bytes[address] == value % 0x100
      ensures size in {W, DW} ==> bytes[address + 1] == value / 0x100 % 0x100
      ensures size == DW ==>
        bytes[address + 2] == value / 0x1_0000 % 0x100 && bytes[address + 3] == value / 0x100_0000 % 0x100
      ensures forall j: nat :: j < bytes.Length && !(address <= j < address + Width(size)) ==>
        bytes[j] == old(bytes[j])
    {
      hide And, Shr, Shl;
      ok := true;
      ghost var was := bytes[..];
      ValueBytes(value);
      match size
      case B =>
        bytes[address] := And(value, 0xFF);
        StoreByte(was, address, value);
      case W =>
        bytes[address + 1] := Shr(And(value, Shl(0xFF, 8)), 8);
        bytes[address] := And(value, 0xFF);
        StoreWord(was, address, value);
      case DW =>
        bytes[address + 3] := Shr(And(value, Shl(0xFF, 24)), 24);
        bytes[address + 2] := Shr(And(value, Shl(0xFF, 16)), 16);
        bytes[address + 1] := Shr(And(value, Shl(0xFF, 8)), 8);
        bytes[address] := And(value, 0xFF);
        StoreDoubleWord(was, address, value);
      case UNKNOWN =>
        ok := false;
    }
  }

  lemma LoadByte(b: seq<byte>, i: nat)
    requires i + 1 <= |b|
    ensures Load(b, i, 1) == b[i]
  {
    assert Load(b, i + 1, 0) == 0;
  }

  lemma LoadWord(b: seq<byte>, i: nat)
    requires i + 2 <= |b|
    ensures Load(b, i, 2) == (b[i] as nat) + 0x100 * (b[i + 1] as nat)
  {
    LoadByte(b, i + 1);
  }

  lemma LoadDoubleWord(b: seq<byte>, i: nat)
    requires i + 4 <= |b|
    ensures Load(b, i, 4)
         == (b[i] as nat) + 0x100 * (b[i + 1] as nat) + 0x1_0000 * (b[i + 2] as nat) + 0x100_0000 * (b[i + 3] as nat)
  {
    LoadWord(b, i + 2);
    assert Load(b, i + 1, 3) == b[i + 1] + 0x100 * Load(b, i + 2, 2);
  }

  lemma StoreByte(b: seq<byte>, i: nat, v: nat)
    requires i + 1 <= |b|
    ensures Store(b, i, v, 1) == b[i := v % 0x100]
  {
    assert Store(b[i := v % 0x100], i + 1, v / 0x100, 0) == b[i := v % 0x100];
  }

  lemma StoreWord(b: seq<byte>, i: nat, v: nat)
    requires i + 2 <= |b|
    ensures Store(b, i, v, 2) == b[i + 1 := v / 0x100 % 0x100][i := v % 0x100]
  {
    var c := b[i := v % 0x100];
    StoreByte(c, i + 1, v / 0x100);
    assert c[i + 1 := v / 0x100 % 0x100] == b[i + 1 := v / 0x100 % 0x100][i := v % 0x100];
  }

  lemma StoreDoubleWord(b: seq<byte>, i: nat, v: nat)
    requires i + 4 <= |b|
    ensures Store(b, i, v, 4) ==
      b[i + 3 := v / 0x100_0000 % 0x100][i + 2 := v / 0x1_0000 % 0x100][i + 1 := v / 0x100 % 0x100][i := v % 0x100]
  {
    var c := b[i := v % 0x100];
    var d := c[i + 1 := v / 0x100 % 0x100];
    StoreWord(d, i + 2, v / 0x1_0000);
    assert v / 0x100 / 0x100 == v / 0x1_0000 && v / 0x1_0000 / 0x100 == v / 0x100_0000;
    assert Store(c, i + 1, v / 0x100, 3) == Store(d, i + 2, v / 0x1_0000, 2);
    assert d[i + 2 + 1 := v / 0x100_0000 % 0x100][i + 2 := v / 0x1_0000 % 0x100]
        == b[i + 3 := v / 0x100_0000 % 0x100][i + 2 := v / 0x1_0000 % 0x100]
            [i + 1 := v / 0x100 % 0x100][i := v % 0x100];
  }

  lemma Shifts(v: nat)
    ensures Shl(v, 8) == 0x100 * v && Shl(v, 16) == 0x1_0000 * v && Shl(v, 24) == 0x100_0000 * v
    ensures Shr(v, 8) == v / 0x100 && Shr(v, 16) == v / 0x1_0000 && Shr(v, 24) == v / 0x100_0000
    ensures Pow2(8) == 0x100 && Pow2(16) == 0x1_0000 && Pow2(24) == 0x100_0000
  {
    hide Shl, Shr;
    assert Pow2(8) == 0x100;
    Pow2Add(8, 8);
    Pow2Add(16, 8);
    ShlIsProduct(v, 8);
    ShlIsProduct(v, 16);
    ShlIsProduct(v, 24);
    ShrIsQuotient(v, 8);
    ShrIsQuotient(v, 16);
    ShrIsQuotient(v, 24);
  }

  lemma WordOr(b0: byte, b1: byte)
    ensures Or(Shl(b1, 8), b0) == b0 + 0x100 * b1
  {
    hide Or, Shl;
    Shifts(b1);
    OrShifted(b1, b0, 8);
  }

  lemma DoubleWordOr(b0: byte, b1: byte, b2: byte, b3: byte)
    ensures Or(Or(Or(Shl(b3, 24), Shl(b2, 16)), Shl(b1, 8)), b0)
         == b0 + 0x100 * b1 + 0x1_0000 * b2 + 0x100_0000 * b3
  {
    hide Or, Shl;
    Shifts(b3);
    Shifts(b2);
    Shifts(b1);
    OrShifted(b3, Shl(b2, 16), 24);
    var high := 0x100 * b3 + b2;
    Shifts(high);
    assert Shl(b3, 24) + Shl(b2, 16) == Shl(high, 16);
    OrShifted(high, Shl(b1, 8), 16);
    var upper := 0x100 * high + b1;
    Shifts(upper);
    assert Shl(high, 16) + Shl(b1, 8) == Shl(upper, 8);
    OrShifted(upper, b0, 8);
  }

  lemma ValueBytes(v: nat)
    ensures And(v, 0xFF) == v % 0x100
    ensures Shr(And(v, Shl(0xFF, 8)), 8) == v / 0x100 % 0x100
    ensures Shr(And(v, Shl(0xFF, 16)), 16) == v / 0x1_0000 % 0x100
    ensures Shr(And(v, Shl(0xFF, 24)), 24) == v / 0x100_0000 % 0x100
  {
    hide And, Shl, Shr;
    Shifts(v);
    LowBitsMask(v, 8);
    ByteOf(v, 8);
    ByteOf(v, 16);
    ByteOf(v, 24);
  }

  // ---------------------------------------------------------------- regions

  const ROM_SIZE: nat := 0x10_0000
  const RAM_SIZE: nat := 0x10_0000
  const STACK_SIZE: nat := 0x10_0000
  const STACK_POS: nat := 0xffff_d6ec - STACK_SIZE
  const ADDRESSES: nat := 0x1_0000_0000

  datatype Region = Text | Rom | Ram | Stack | Outside

  /** The bounds of the regions, as the constructor of `Memory` computes them in 32 bits. */
  datatype Layout = Layout(textPos: nat, textEnd: nat, romPos: nat, romEnd: nat, ramPos: nat, ramEnd: nat)

  function MakeLayout(textPos: nat, textSize: nat, romPos: nat): Layout {
    var romEnd := (romPos + ROM_SIZE) % ADDRESSES;
    Layout(textPos, (textPos + textSize) % ADDRESSES, romPos, romEnd, romEnd, (romEnd + RAM_SIZE) % ADDRESSES)
  }

  /** The first region that the address falls into, in the order of the tests. */
  function RegionOf(l: Layout, address: nat): Region {
    if l.textPos <= address < l.textEnd then Text
    else if l.romPos <= address < l.romEnd then Rom
    else if l.ramPos <= address < l.ramEnd then Ram
    else if STACK_POS <= address < STACK_POS + STACK_SIZE then Stack
    else Outside
  }

  /** Where the regions lie and where the bytes of an address are in their arrays, for regions that do
      not wrap around or overlap. */
  lemma RegionsOfLayout(textPos: nat, textSize: nat, romPos: nat, address: nat)
    requires romPos + 0x20_0000 <= 0xFFEF_D6EC
    requires textPos + textSize <= romPos
          || (romPos + 0x20_0000 <= textPos && textPos + textSize <= 0xFFEF_D6EC)
    ensures var l := MakeLayout(textPos, textSize, romPos);
            && (RegionOf(l, address) == Text <==> textPos <= address < textPos + textSize)
            && (RegionOf(l, address) == Rom <==> romPos <= address < romPos + 0x10_0000)
            && (RegionOf(l, address) == Ram <==> romPos + 0x10_0000 <= address < romPos + 0x20_0000)
            && (RegionOf(l, address) == Stack <==> 0xFFEF_D6EC <= address < 0xFFFF_D6EC)
            && (RegionOf(l, address) == Rom ==> OffsetOf(l, address) == address - romPos)
            && (RegionOf(l, address) == Ram ==> OffsetOf(l, address) == address - romPos - 0x10_0000)
            && (RegionOf(l, address) == Stack ==> OffsetOf(l, address) == address - 0xFFEF_D6EC)
  {
  }

  /** The offset in the array of the region. */
  function OffsetOf(l: Layout, address: nat): int {
    match RegionOf(l, address)
    case Rom => address - l.romPos
    case Ram => address - l.ramPos
    case Stack => address - STACK_POS
    case _ => 0
  }

  /** No access runs over the end of its array: the source does not check this. */
  predicate Fits(l: Layout, address: nat, size: OpSize) {
    0 <= OffsetOf(l, address) && OffsetOf(l, address) + Width(size) <= 0x10_0000
  }

  datatype Fault = TextAccess | RomWrite | OutOfBounds | WrongSize

  datatype Access<T> = Ok(value: T) | Wrong(fault: Fault)

  /** What the regions of data hold. */
  datatype Contents = Contents(rom: seq<byte>, ram: seq<byte>, stack: seq<byte>) {
    predicate Valid() {
      |rom| == ROM_SIZE && |ram| == RAM_SIZE && |stack| == STACK_SIZE
    }
  }

  predicate Readable(l: Layout, address: nat) {
    RegionOf(l, address) in {Rom, Ram, Stack}
  }

  predicate Writable(l: Layout, address: nat) {
    RegionOf(l, address) in {Ram, Stack}
  }

  /** The contents after a write: only the region that is hit changes, and only if it can be written. */
  function Written(l: Layout, m: Contents, address: nat, v: nat, size: OpSize): (r: Contents)
    requires m.Valid() && Fits(l, address, size)
    ensures r.Valid() && r.rom == m.rom
  {
    match RegionOf(l, address)
    case Ram => m.(ram := Store(m.ram, OffsetOf(l, address), v, Width(size)))
    case Stack => m.(stack := Store(m.stack, OffsetOf(l, address), v, Width(size)))
    case _ => m
  }

  /** The number at an address that can be read. */
  function Loaded(l: Layout, m: Contents, address: nat, size: OpSize): (v: nat)
    requires m.Valid() && Fits(l, address, size) && Readable(l, address)
    ensures v < Limit(Width(size))
  {
    var bytes := match RegionOf(l, address) case Rom => m.rom case Ram => m.ram case _ => m.stack;
    LoadBound(bytes, OffsetOf(l, address), Width(size));
    Load(bytes, OffsetOf(l, address), Width(size))
  }

  /** What was written to an address is read there, cut to the size, in every region that can be written. */
  lemma ReadBack(l: Layout, m: Contents, address: nat, v: nat, size: OpSize)
    requires m.Valid() && Fits(l, address, size) && Writable(l, address)
    ensures Loaded(l, Written(l, m, address, v, size), address, size) == v % Limit(Width(size))
  {
    hide Load, Store;
    var bytes := if RegionOf(l, address) == Ram then m.ram else m.stack;
    LoadStore(bytes, OffsetOf(l, address), v, Width(size));
  }

  /** A write leaves what is read at all other addresses. */
  lemma ReadOther(l: Layout, m: Contents, address: nat, v: nat, size: OpSize, other: nat, otherSize: OpSize)
    requires m.Valid() && Fits(l, address, size) && Fits(l, other, otherSize) && Readable(l, other)
    requires other + Width(otherSize) <= address || address + Width(size) <= other
    ensures Loaded(l, Written(l, m, address, v, size), other, otherSize) == Loaded(l, m, other, otherSize)
  {
    hide Load, Store;
    if Writable(l, address) && RegionOf(l, address) == RegionOf(l, other) {
      var bytes := if RegionOf(l, address) == Ram then m.ram else m.stack;
      LoadOther(bytes, OffsetOf(l, address), v, Width(size), OffsetOf(l, other), Width(otherSize));
    }
  }

  class MemoryMap {
    const layout: Layout
    const rom: ReadWriteMemoryInterface
    const ram: ReadWriteMemoryInterface
    const stack: ReadWriteMemoryInterface

    constructor (textPos: nat, textSize: nat, romPos: nat, romBytes: array<byte>, ramBytes: array<byte>)
      requires romBytes.Length == ROM_SIZE && ramBytes.Length == RAM_SIZE && romBytes != ramBytes
      ensures Valid() && layout == MakeLayout(textPos, textSize, romPos)
      ensures layout.textPos == textPos && layout.textEnd == (textPos + textSize) % 0x1_0000_0000
      ensures layout.romPos == romPos && layout.romEnd == (romPos + 0x10_0000) % 0x1_0000_0000
      ensures layout.ramPos == layout.romEnd && layout.ramEnd == (layout.ramPos + 0x10_0000) % 0x1_0000_0000
      ensures rom.bytes == romBytes && ram.bytes == ramBytes && fresh(stack.bytes)
    {
      layout := MakeLayout(textPos, textSize, romPos);
      rom := new ReadWriteMemoryInterface(romBytes);
      ram := new ReadWriteMemoryInterface(ramBytes);
      var stackBytes := new byte[STACK_SIZE](_ => 0);
      stack := new ReadWriteMemoryInterface(stackBytes);
    }

    predicate Valid() {
      && rom.bytes.Length == ROM_SIZE && ram.bytes.Length == RAM_SIZE && stack.bytes.Length == STACK_SIZE
      && rom.bytes != ram.bytes && ram.bytes != stack.bytes && rom.bytes != stack.bytes
    }

    ghost function Bytes(): (m: Contents)
      requires Valid()
      reads rom.bytes, ram.bytes, stack.bytes
      ensures m.Valid()
    {
      Contents(rom.bytes[..], ram.bytes[..], stack.bytes[..])
    }

    method Read(address: nat, size: OpSize) returns (r: Access<nat>)
      requires Valid() && Fits(layout, address, size)
      ensures RegionOf(layout, address) == Text ==> r == Wrong(TextAccess)
      ensures RegionOf(layout, address) == Outside ==> r == Wrong(OutOfBounds)
      ensures Readable(layout, address) ==>
        r == if size == UNKNOWN then Wrong(WrongSize) else Ok(Loaded(layout, Bytes(), address, size))
      ensures
        var text := layout.textPos <= address < layout.textEnd;
        var inRom := !text && layout.romPos <= address < layout.romEnd;
        var inRam := !text && !inRom && layout.ramPos <= address < layout.ramEnd;
        var inStack := !text && !inRom && !inRam && 0xFFEF_D6EC <= address < 0xFFFF_D6EC;
        && (text <==> r == Wrong(TextAccess))
        && (!text && !inRom && !inRam && !inStack <==> r == Wrong(OutOfBounds))
        && (size != UNKNOWN ==>
              && (inRom ==> r == Ok(Load(rom.bytes[..], address - layout.romPos, Width(size))))
              && (inRam ==> r == Ok(Load(ram.bytes[..], address - layout.ramPos, Width(size))))
              && (inStack ==> r == Ok(Load(stack.bytes[..], address - 0xFFEF_D6EC, Width(size)))))
    {
      var v := None;
      if layout.textPos <= address < layout.textEnd {
        return Wrong(TextAccess);
      } else if layout.romPos <= address < layout.romEnd {
        v := rom.Read(address - layout.romPos, size);
      } else if layout.ramPos <= address < layout.ramEnd {
        v := ram.Read(address - layout.ramPos, size);
      } else if STACK_POS <= address < STACK_POS + STACK_SIZE {
        v := stack.Read(address - STACK_POS, size);
      } else {
        return Wrong(OutOfBounds);
      }
      r := if v.Some? then Ok(v.value) else Wrong(WrongSize);
    }

    /** Only the bytes of the region that is hit change, and nothing changes on a fault. */
    method Write(address: nat, value: nat, size: OpSize) returns (r: Access<()>)
      requires Valid() && Fits(layout, address, size)
      modifies ram.bytes, stack.bytes
      ensures RegionOf(layout, address) == Text ==> r == Wrong(TextAccess)
      ensures RegionOf(layout, address) == Rom ==> r == Wrong(RomWrite)
      ensures RegionOf(layout, address) == Outside ==> r == Wrong(OutOfBounds)
      ensures Writable(layout, address) ==> r == if size == UNKNOWN then Wrong(WrongSize) else Ok(())
      ensures Bytes() == Written(layout, old(Bytes()), address, value, size)
      ensures
        var text := layout.textPos <= address < layout.textEnd;
        var inRom := !text && layout.romPos <= address < layout.romEnd;
        var inRam := !text && !inRom && layout.ramPos <= address < layout.ramEnd;
        var inStack := !text && !inRom && !inRam && 0xFFEF_D6EC <= address < 0xFFFF_D6EC;
        && (text <==> r == Wrong(TextAccess)) && (inRom <==> r == Wrong(RomWrite))
        && (!text && !inRom && !inRam && !inStack <==> r == Wrong(OutOfBounds))
        && ram.bytes[..] == (if inRam
                             then Store(old(ram.bytes[..]), address - layout.ramPos, value, Width(size))
                             else old(ram.bytes[..]))
        && stack.bytes[..] == (if inStack
                               then Store(old(stack.bytes[..]), address - 0xFFEF_D6EC, value, Width(size))
                               else old(stack.bytes[..]))
    {
      var ok := true;
      if layout.textPos <= address < layout.textEnd {
        return Wrong(TextAccess);
      } else if layout.romPos <= address < layout.romEnd {
        return Wrong(RomWrite);
      } else if layout.ramPos <= address < layout.ramEnd {
        ok := ram.Write(address - layout.ramPos, value, size);
      } else if STACK_POS <= address < STACK_POS + STACK_SIZE {
        ok := stack.Write(address - STACK_POS, value, size);
      } else {
        return Wrong(OutOfBounds);
      }
      r := if ok then Ok(()) else Wrong(WrongSize);
    }
  }
}
