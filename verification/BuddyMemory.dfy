/** `StaticBinaryTreeManagedMemory`: the public interface of the buddy allocator. */
module BuddyMemory {
  import opened Arithmetic
  import opened Bits
  import opened DataTypes
  import opened Wrappers
  import opened AluAdd
  import opened AluDivide
  import opened AluScan
  import opened BuddyTree
  import opened BuddyAllocate
  import opened BuddyCount
  import opened BuddyFree
  import opened BuddyRuns
  import BuddyCell

  ghost predicate IsPow2(n: nat) {
    exists k: nat :: n == Pow2(k)
  }

  // ---------------------------------------------------------------- size rounding

  lemma PowersOrdered(i: nat, j: nat)
    ensures Pow2(i) < Pow2(j) <==> i < j
  {
    if i < j {
      Pow2Mono(i, j);
    } else {
      Pow2Mono(j, i);
    }
  }

  lemma PowerIndex(k: nat, i: nat)
    requires Pow2(i) <= Pow2(k) < Pow2(i + 1)
    ensures i == k
  {
    PowersOrdered(k, i);
    PowersOrdered(k, i + 1);
  }

  /** The layer from the logarithms: `b` rounds the bytes up, `a` is the granularity's. */
  lemma LayerFromLogs(granularity: nat, bytes: nat, a: nat, b: nat)
    requires granularity == Pow2(a) && bytes <= Pow2(b) && (b == 0 || Pow2(b - 1) < bytes)
    ensures LayerFor(granularity, bytes) == if b >= a then b - a else 0
  {
    var k := if b >= a then b - a else 0;
    ShlPow2(a, k);
    Pow2Mono(b, a + k);
    LayerForIsLeast(granularity, bytes, k);
    if k > 0 {
      ShlPow2(a, k - 1);
      LayerForIsLeast(granularity, bytes, k - 1);
    }
  }

  lemma BoundsOf64()
    ensures Pow2(3) == 8 && Pow2(5) == 32 && Pow2(6) == 64 && Pow2(7) == 128 && Pow2(8) == 256
  {
  }

  /** `get_allocation_size`, for a 64-bit size and an 8-bit granularity. */
  method GetAllocationSize(granularity: nat, bytes: nat) returns (size: nat, isZero: bool)
    requires IsPow2(granularity) && granularity < 256 && bytes < Pow2(64)
    ensures isZero <==> bytes == 0
    ensures bytes == 0 ==> size == 0
    ensures bytes > 0 ==> size == LayerFor(granularity, bytes) <= 64
  {
    hide *;
    BoundsOf64();
    PowerIsPositive(granularity);
    var cellBytesPow, _ := GetLastSetBitIndex(3, granularity);
    GranularityIndex(granularity, cellBytesPow);
    var bytesPow;
    bytesPow, isZero := GetLastSetBitIndex(6, bytes);
    if isZero {
      return 0, true;
    }
    var isPower := CheckPowerOf2(64, bytes);
    RoundUp(bytes, bytesPow);
    if !isPower {
      TruncSmall(8, bytesPow + 1);
      ModIsTrunc(8, bytesPow + 1);
      bytesPow := AddNoCarry(8, bytesPow, 1);
    }
    size := SubNoCarry(8, bytesPow, 8, cellBytesPow);
    SmallDifference(bytesPow, cellBytesPow);
    LayerFromLogs(granularity, bytes, cellBytesPow, bytesPow);
    ByteSign();
    var negative := CheckIsNegative(8, size, B);
    if negative {
      size := 0;
    }
  }

  lemma ByteSign()
    ensures LastBitPos(8, B) == 7
  {
  }

  lemma ModIsTrunc(w: nat, x: nat)
    ensures x % Pow2(w) == Trunc(w, x)
  {
  }

  lemma PowerIsPositive(n: nat)
    requires IsPow2(n)
    ensures n > 0
  {
  }

  lemma GranularityIndex(granularity: nat, i: nat)
    requires IsPow2(granularity) && granularity < 256 && Pow2(i) <= granularity < Pow2(i + 1) && i < 8
    ensures granularity == Pow2(i)
  {
    var k: nat :| granularity == Pow2(k);
    PowerIndex(k, i);
  }

  lemma RoundUp(bytes: nat, i: nat)
    requires Pow2(i) <= bytes < Pow2(i + 1) && i < 64
    ensures (exists k: nat :: bytes == Pow2(k)) ==> bytes == Pow2(i) && (i == 0 || Pow2(i - 1) < bytes)
    ensures !(exists k: nat :: bytes == Pow2(k)) ==> bytes <= Pow2(i + 1) && Pow2(i) < bytes
  {
    if k: nat :| bytes == Pow2(k) {
      PowerIndex(k, i);
    }
  }

  lemma SmallDifference(b: nat, a: nat)
    requires b <= 64 && a < 8
    ensures Trunc(8, b - a) == if b >= a then b - a else 256 + b - a
    ensures Signed(8, Trunc(8, b - a)) == b - a
    ensures Pow2(8) == 256
  {
    assert Pow2(7) == 128 && Pow2(8) == 256;
    if b >= a {
      TruncSmall(8, b - a);
    } else {
      DivModUnique(b - a, 256, -1, 256 + b - a);
    }
  }

  // ---------------------------------------------------------------- the width of cell_size

  lemma RootSize(granularity: nat, layers: nat)
    requires IsPow2(granularity) && layers > 1
    ensures Trunc(16, Shl(granularity, layers)) == Shl(UnitOf(granularity, layers), layers)
  {
    hide Pow2, Trunc, Shl;
    var k: nat :| granularity == Pow2(k);
    ShlPow2(k, layers);
    ShlIsProduct(0, layers);
    if Shl(granularity, layers) >= Pow2(16) {
      PowersOrdered(k + layers, 16);
      ShlPow2(0, k + layers);
      ShiftedOut(16, Pow2(0), k + layers);
    } else {
      TruncSmall(16, Shl(granularity, layers));
    }
  }

  /** The number of layers and the size given to the root. */
  lemma RootFacts(cells: nat, granularity: nat, layers: nat)
    requires IsPow2(granularity) && 1 < cells < Pow2(16) && Pow2(layers) <= cells < Pow2(layers + 1)
    ensures 0 < layers <= 15
    ensures var size := Shl(granularity, layers);
            (if layers > 1 then Trunc(16, size) else size) == Shl(UnitOf(granularity, layers), layers)
  {
    hide Trunc, Shl;
    PowersOrdered(layers, 16);
    assert Pow2(0) == 1 && Pow2(1) == 2;
    if layers > 1 {
      RootSize(granularity, layers);
    }
  }

  lemma EndBeforeStart(granularity: nat, a: Block, b: Block)
    requires a.offset + Pow2(a.layer) <= b.offset
    ensures granularity * a.offset + Shl(granularity, a.layer) <= granularity * b.offset
  {
    ShlIsProduct(granularity, a.layer);
    Factor(granularity, a.offset, Pow2(a.layer));
    MulMono(granularity, a.offset + Pow2(a.layer), b.offset);
  }

  /** Two different live blocks have disjoint byte ranges, whatever they are, exactly when
      the size of the root fits. */
  lemma AddressesDisjointIffRootFits(granularity: nat, layers: nat)
    requires granularity > 0 && layers > 0
    ensures var unit := UnitOf(granularity, layers);
            (layers == 1 || Shl(granularity, layers) < Pow2(16)) <==>
            (forall a: Block, b: Block {:trigger Disjoint(a, b)} :: Disjoint(a, b) ==>
               unit * a.offset + Shl(granularity, a.layer) <= unit * b.offset
               || unit * b.offset + Shl(granularity, b.layer) <= unit * a.offset)
  {
    var unit := UnitOf(granularity, layers);
    if unit == granularity {
      forall a: Block, b: Block | Disjoint(a, b)
        ensures unit * a.offset + Shl(granularity, a.layer) <= unit * b.offset
             || unit * b.offset + Shl(granularity, b.layer) <= unit * a.offset
      {
        if a.offset + Pow2(a.layer) <= b.offset {
          EndBeforeStart(granularity, a, b);
        } else {
          EndBeforeStart(granularity, b, a);
        }
      }
    } else {
      var a, b := Block(0, 0), Block(0, 1);
      assert Pow2(0) == 1;
      assert Disjoint(a, b);
      assert unit * a.offset == 0 && unit * b.offset == 0;
    }
  }

  /** The shipped memory, 2^20 bits in granules of 4 bytes, has a root that does not fit. */
  lemma ShippedSizeDoesNotFit()
    ensures 0x100000 / (8 * 4) == Pow2(15)
    ensures UnitOf(4, 15) == 0
  {
    assert Pow2(7) == 128 && Pow2(8) == 256;
    Pow2Add(7, 8);
    ShippedUnit();
  }

  // ---------------------------------------------------------------- the address checks

  lemma FirstCheck(granularity: nat, address: nat)
    requires address < Pow2(32)
    ensures And(address, Trunc(32, Shl(Pow2(32) - 1, granularity))) != 0 <==> address >= Pow2(granularity)
  {
    ShiftWindow(0, 32, granularity);
    FullWindow(32, 0);
    if granularity < 32 {
      CutWindow(32, granularity, 32 + granularity);
      AndWindow(address, granularity, 32);
    } else {
      ShiftedOut(32, Pow2(32) - 1, granularity);
      Pow2Mono(32, granularity);
      AndZero(address);
    }
  }

  lemma SecondCheck(address: nat, shift: nat)
    requires shift < 32
    ensures Shr(Trunc(32, Shl(address, shift)), shift) == Trunc(32 - shift, address)
  {
    hide Pow2, Shr, Shl;
    var k := 32 - shift;
    var q, r := address / Pow2(k), Trunc(k, address);
    ShiftedParts(address, q, r, k, shift);
    TruncSmall(32, Shl(r, shift));
    TruncAddMultiple(32, Shl(r, shift), q);
    ShrShl(r, shift);
  }

  lemma ShiftedParts(x: nat, q: nat, r: nat, k: nat, shift: nat)
    requires x == q * Pow2(k) + r && r < Pow2(k)
    ensures Shl(x, shift) == Shl(r, shift) + q * Pow2(k + shift)
    ensures Shl(r, shift) < Pow2(k + shift)
  {
    ShlMinus(x, r, shift);
    ShlIsProduct(q * Pow2(k), shift);
    Pow2Add(k, shift);
    Associate(q, Pow2(k), Pow2(shift));
    ShlMono(r, shift, Pow2(k) - 1, shift);
    ShlMinus(Pow2(k), 1, shift);
    ShlPow2(k, shift);
    ShlPow2(0, shift);
  }

  // ---------------------------------------------------------------- the allocator

  lemma ByteBounds()
    ensures Pow2(8) == 256
    ensures Pow2(32) > 0
  {
  }

  /** What `allocate` tests and what it then does, in terms of the live blocks. */
  lemma AllocationFacts(granularity: nat, layers: nat, tree: Cell, bytes: nat)
    requires granularity > 0 && layers <= 15 && Shape(tree, layers) && Good(tree, layers)
    ensures var size, live := LayerFor(granularity, bytes), Live(tree, layers, 0);
            && Pow2(8) == 256 && tree.slots < Pow2(32)
            && (size > layers <==> Shl(granularity, layers) < bytes)
            && (size <= layers ==> size % 32 == size && (Bit(tree.slots, size) <==> !HasRoom(live, size, layers, 0)))
            && (size <= layers && !Bit(tree.slots, size) ==>
                  var (tree', off) := AllocateFor(tree, layers, size);
                  && Good(tree', layers) && Live(tree', layers, 0) == live + {Block(size, off)}
                  && LowestFree(live, size, layers, 0, off))
  {
    hide Live, Good, LowestFree, HasRoom, Pow2, Bit, Shl, LayerFor;
    var size := LayerFor(granularity, bytes);
    ByteBounds();
    SlotsBound(tree, layers);
    Pow2Mono(layers + 1, 32);
    LayerForIsLeast(granularity, bytes, layers);
    if size <= layers {
      SummaryExact(tree, layers, 0, size);
      if !Bit(tree.slots, size) {
        AllocateTakesLowest(tree, layers, 0, size);
      }
    }
  }

  class StaticBinaryTreeManagedMemory {
    const granularity: nat
    const memoryPosition: nat
    const layersCount: nat
    const root: BuddyCell.TreeCell
    /** The blocks handed out and not taken back, by the history of the calls. */
    ghost var live: set<Block>

    /** `memorySize` is in bits, `granularity` in bytes. */
    constructor (memorySize: nat, granularity: nat, memoryPosition: nat)
      requires IsPow2(granularity) && granularity < 256
      requires IsPow2(memorySize) && memorySize < Pow2(32)
      requires 1 < memorySize / (8 * granularity) < Pow2(16)
      ensures Valid() && live == {} && fresh(root.Repr)
      ensures this.granularity == granularity && this.memoryPosition == memoryPosition
      ensures Pow2(layersCount) <= memorySize / (8 * granularity) < Pow2(layersCount + 1)
    {
      this.granularity := granularity;
      this.memoryPosition := memoryPosition;
      hide Pow2, Shl, Trunc, UnitOf, IsPow2, Live, Good;
      BoundsOf64();
      PowersOrdered(16, 32);
      PowerIsPositive(granularity);
      var layers, _ := GetLastSetBitIndex(5, memorySize / (8 * granularity));
      RootFacts(memorySize / (8 * granularity), granularity, layers);
      layersCount := layers;
      root := new BuddyCell.TreeCell(layers, Shl(granularity, layers), memoryPosition, UnitOf(granularity, layers));
      live := {};
      new;
      FreshIsEmpty(layers, 0);
    }

    ghost predicate Structure()
      reads this
    {
      && IsPow2(granularity) && 0 < granularity < 256
      && 0 < layersCount <= 15
      && root.WellFormed() && this !in root.Repr
      && root.layer == layersCount
      && root.memoryPosition == memoryPosition
      && root.unit == Unit()
    }

    ghost predicate Valid()
      reads this, root, root.Repr
    {
      && Structure()
      && Good(root.View(), layersCount)
      && live == Live(root.View(), layersCount, 0)
    }

    function Unit(): nat {
      UnitOf(granularity, layersCount)
    }

    /** Null exactly for no bytes, for more than the memory, and when no aligned block of the
        rounded size is free; otherwise the lowest free one, which is then live, with all
        other blocks as before. */
    method Allocate(bytes: nat) returns (r: Option<nat>)
      requires Valid() && bytes < Pow2(64)
      modifies this, root.Repr
      ensures Valid()
      ensures r.None? <==>
        bytes == 0 || Shl(granularity, layersCount) < bytes
        || !HasRoom(old(live), LayerFor(granularity, bytes), layersCount, 0)
      ensures r.None? ==> live == old(live)
      ensures r.Some? ==> exists off: nat ::
        && r.value == memoryPosition + Unit() * off
        && LowestFree(old(live), LayerFor(granularity, bytes), layersCount, 0, off)
        && live == old(live) + {Block(LayerFor(granularity, bytes), off)}
      ensures var (tree, address) := TreeAllocate(granularity, layersCount, old(root.View()), bytes);
              && root.View() == tree
              && r == if address.None? then None else Some(memoryPosition + address.value)
    {
      hide Live, Good, Pow2, Bit, Shl, LayerFor, LowestFree, HasRoom, IsPow2, UnitOf;
      ghost var tree := root.View();
      AllocationFacts(granularity, layersCount, tree, bytes);
      var size, isZero := GetAllocationSize(granularity, bytes);
      r := None;
      if !isZero {
        var tooLarge := CompareGreater(8, size, layersCount);
        if !tooLarge {
          var _, noSpace := GetAndSetBitAt(root.allocSlots, size, false, true);
          if !noSpace {
            var pos := root.AllocateFor(size);
            live := live + {Block(size, AllocateFor(tree, layersCount, size).1)};
            r := Some(pos);
          }
        }
      }
    }

    /** For a pointer and a size that an honest user passes, the memory stays valid and loses
        exactly the blocks of the reference allocator.  For any others that pass the checks, the
        masks stay right if and only if no live block is a part of the cell that is cleared. */
    method Deallocate(ptr: Option<nat>, bytes: nat)
      requires Valid() && bytes < Pow2(64)
      requires ptr.Some? ==> ShiftsDefined(granularity, Trunc(32, ptr.value - memoryPosition), bytes)
      modifies this, root.Repr
      ensures Structure()
      ensures ptr.None? ==> Valid() && live == old(live)
      ensures ptr.Some? ==>
        var address := Trunc(32, ptr.value - memoryPosition);
        root.View() == TreeDeallocate(granularity, layersCount, old(root.View()), address, bytes)
      ensures ptr.Some? ==>
        var op := Dealloc(Trunc(32, ptr.value - memoryPosition), bytes);
        Honest(granularity, old(live), op) ==>
          Valid() && live == RefStep(granularity, layersCount, old(live), op).0
      ensures ptr.Some? && bytes > 0 ==>
        var size := LayerFor(granularity, bytes);
        PassesChecks(granularity, Trunc(32, ptr.value - memoryPosition), size) ==>
          && (Good(root.View(), layersCount) <==> ClearsNoPart(old(live), ClearedLayer(layersCount, size), 0))
          && (Good(root.View(), layersCount) ==>
                Live(root.View(), layersCount, 0)
                == set x | x in old(live) && x.offset >= ClearedTo(layersCount, size, 0))
    {
      hide Live, Good, Pow2, Bit, LayerFor, IsPow2, UnitOf, And, Trunc, Shl, Shr, RefStep, Honest, ClearsNoPart;
      if ptr.Some? {
        var address := Trunc(32, ptr.value - memoryPosition);
        ghost var tree, op := root.View(), Dealloc(address, bytes);
        if Honest(granularity, live, op) {
          StepRefines(granularity, layersCount, tree, op);
        }
        if bytes > 0 && PassesChecks(granularity, address, LayerFor(granularity, bytes)) {
          FreeOfAnySize(granularity, layersCount, tree, address, bytes);
        }
        live := RefStep(granularity, layersCount, live, op).0;
        DeallocateByChecks(address, bytes);
      }
    }

    /** The checks of `deallocate` and the descent. */
    method DeallocateByChecks(address: nat, bytes: nat)
      requires Structure() && address < Pow2(32) && bytes < Pow2(64)
      requires ShiftsDefined(granularity, address, bytes)
      modifies root.Repr
      ensures root.View() == TreeDeallocate(granularity, layersCount, old(root.View()), address, bytes)
    {
      hide Pow2, LayerFor, IsPow2, UnitOf, And, Trunc, Shl, Shr;
      ByteBounds();
      var ptrMask := Trunc(32, Shl(Pow2(32) - 1, granularity));
      FirstCheck(granularity, address);
      if And(address, ptrMask) == 0 {
        var size, isZero := GetAllocationSize(granularity, bytes);
        if !isZero {
          SecondCheck(address, size + granularity);
          TruncSmall(8, size + granularity);
          ModIsTrunc(8, size + granularity);
          var cellSize := AddNoCarry(8, size, granularity);
          var cellIndex := Shr(address, cellSize);
          var remainder := Shr(Trunc(32, Shl(address, cellSize)), cellSize);
          if remainder == 0 {
            root.Deallocate(cellIndex, size);
          }
        }
      }
    }

    /** The bytes in use are those of the live blocks. */
    method GetAllocatedMemorySize() returns (size: nat)
      requires Valid()
      ensures size == Total(live, Unit())
    {
      AllocatedSizeIsTotal(root.View(), layersCount, 0, Unit());
      size := root.GetAllocatedSize();
    }
  }
}
