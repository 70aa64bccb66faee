/** Whole runs of the allocator: the tree gives the same answers as a naive allocator
    that scans a set of live blocks from the lowest offset. */
module BuddyRuns {
  import opened Arithmetic
  import opened Bits
  import opened Wrappers
  import opened BuddyTree
  import opened BuddyAllocate
  import opened BuddyFree

  // ---------------------------------------------------------------- sizes

  /** The layer of a request: the least k with granularity * 2^k >= bytes. */
  function LayerFor(granularity: nat, bytes: nat): nat
    requires granularity > 0
    decreases bytes - granularity
  {
    if bytes <= granularity then 0 else 1 + LayerFor(2 * granularity, bytes)
  }

  lemma {:induction false} LayerForIsLeast(granularity: nat, bytes: nat, k: nat)
    requires granularity > 0
    ensures LayerFor(granularity, bytes) <= k <==> Shl(granularity, k) >= bytes
    decreases bytes - granularity
  {
    if bytes <= granularity {
      ShlMono(granularity, 0, granularity, k);
    } else if k > 0 {
      LayerForIsLeast(2 * granularity, bytes, k - 1);
      ShlDouble(granularity, false, k - 1);
    }
  }

  // ---------------------------------------------------------------- the public interface on values

  /** The bytes that a step of one granule really moves: the granularity, unless the size of the
      root does not fit the 16 bits of `cell_size`, in which case every size is 0. */
  function UnitOf(granularity: nat, layers: nat): (unit: nat)
    ensures unit == granularity || unit == 0
  {
    if layers > 1 && Shl(granularity, layers) >= Pow2(16) then 0 else granularity
  }

  /** `allocate`: the tree afterwards, and the address of the block in the memory, if any. */
  function TreeAllocate(granularity: nat, layers: nat, tree: Cell, bytes: nat): (r: (Cell, Option<nat>))
    requires granularity > 0 && Shape(tree, layers)
    ensures Shape(r.0, layers)
  {
    if bytes == 0 then (tree, None) else
    var size := LayerFor(granularity, bytes);
    if size > layers || Bit(tree.slots, size) then (tree, None) else
    var (tree', off) := AllocateFor(tree, layers, size);
    (tree', Some(UnitOf(granularity, layers) * off))
  }

  /** The two address checks of `deallocate`.  The first masks with the granularity as a
      bit count; the second keeps the low bits of the address that survive a shift up and
      down by the block's layer plus the granularity.  A shift by 32 or more is undefined. */
  predicate PassesChecks(granularity: nat, address: nat, size: nat) {
    && size + granularity < 32
    && address < Pow2(granularity)
    && Trunc(32 - (size + granularity), address) == 0
  }

  /** The shifts by layer and granularity stay inside 32 bits, where `deallocate` gets to them. */
  predicate ShiftsDefined(granularity: nat, address: nat, bytes: nat)
    requires granularity > 0
  {
    bytes > 0 && address < Pow2(granularity) ==> LayerFor(granularity, bytes) + granularity < 32
  }

  /** `deallocate`, for an address relative to the managed memory. */
  function TreeDeallocate(granularity: nat, layers: nat, tree: Cell, address: nat, bytes: nat): (c: Cell)
    requires granularity > 0 && Shape(tree, layers)
    requires ShiftsDefined(granularity, address, bytes)
    ensures Shape(c, layers)
  {
    if bytes == 0 || address >= Pow2(granularity) then tree else
    var size := LayerFor(granularity, bytes);
    if PassesChecks(granularity, address, size)
    then Deallocate(tree, layers, Shr(address, size + granularity), size)
    else tree
  }

  /** The checks let an address through only with index 0. */
  lemma IndexIsZero(granularity: nat, address: nat, size: nat)
    requires address < Pow2(granularity)
    ensures Shr(address, size + granularity) == 0
  {
    ShrIsQuotient(address, size + granularity);
    Pow2Mono(granularity, size + granularity);
    DivModUnique(address, Pow2(size + granularity), 0, address);
  }

  lemma ZeroPasses(granularity: nat, size: nat)
    requires size + granularity < 32
    ensures PassesChecks(granularity, 0, size)
  {
    TruncSmall(32 - (size + granularity), 0);
  }

  /** At granularities up to 8 only address 0 passes, for blocks up to 2^15 granules. */
  lemma OnlyZeroPasses(granularity: nat, address: nat, size: nat)
    requires granularity <= 8 && size <= 15
    ensures PassesChecks(granularity, address, size) <==> address == 0
  {
    var k := 32 - (size + granularity);
    ZeroPasses(granularity, size);
    if address < Pow2(granularity) {
      Pow2Mono(granularity, k);
      TruncSmall(k, address);
    }
  }

  /** Granules cannot be freed on their own at a non-zero address. */
  lemma GranuleOnlyAtZero(granularity: nat, address: nat)
    requires granularity <= 16
    ensures PassesChecks(granularity, address, 0) ==> address == 0
  {
    if address < Pow2(granularity) {
      Pow2Mono(granularity, 32 - granularity);
      TruncSmall(32 - granularity, address);
    }
  }

  /** A free whose address passes the checks, with any size: it keeps the invariant if and only if no
      live block is a part of the cell that is cleared, and then the blocks that start in its range
      go. */
  lemma FreeOfAnySize(granularity: nat, layers: nat, tree: Cell, address: nat, bytes: nat)
    requires granularity > 0 && Shape(tree, layers) && Good(tree, layers)
    requires bytes > 0 && PassesChecks(granularity, address, LayerFor(granularity, bytes))
    ensures var size, live := LayerFor(granularity, bytes), Live(tree, layers, 0);
            var tree' := TreeDeallocate(granularity, layers, tree, address, bytes);
            && (Good(tree', layers) <==> ClearsNoPart(live, ClearedLayer(layers, size), 0))
            && (Good(tree', layers) ==>
                  Live(tree', layers, 0) == set x | x in live && x.offset >= ClearedTo(layers, size, 0))
  {
    hide Live, Good, Pow2, LayerFor, ClearsNoPart, ClearedTo;
    var size := LayerFor(granularity, bytes);
    IndexIsZero(granularity, address, size);
    FreeFromBase(tree, layers, 0, size);
  }

  /** A free of the live block at offset 0. */
  lemma PassedFree(granularity: nat, layers: nat, tree: Cell, address: nat, bytes: nat)
    requires granularity > 0 && Shape(tree, layers) && Good(tree, layers)
    requires bytes > 0 && PassesChecks(granularity, address, LayerFor(granularity, bytes))
    requires Block(LayerFor(granularity, bytes), 0) in Live(tree, layers, 0)
    ensures var live := Live(tree, layers, 0);
            var tree' := TreeDeallocate(granularity, layers, tree, address, bytes);
            && Good(tree', layers)
            && Live(tree', layers, 0) == live - Released(LayerFor(granularity, bytes), 0)
  {
    hide Live, Good, Pow2, LayerFor;
    var size := LayerFor(granularity, bytes);
    IndexIsZero(granularity, address, size);
    FreeFirst(tree, layers, 0, size);
  }

  /** A free at an address other than 0 never removes a block at an offset other than 0. */
  lemma FreeNotAtZero(granularity: nat, layers: nat, tree: Cell, b: Block, address: nat, bytes: nat)
    requires 0 < granularity <= 16 && b.layer + granularity < 32
    requires Shape(tree, layers) && Good(tree, layers)
    requires b in Live(tree, layers, 0) && b.offset != 0 && address != 0
    requires bytes > 0 && LayerFor(granularity, bytes) == b.layer
    ensures b in Live(TreeDeallocate(granularity, layers, tree, address, bytes), layers, 0)
  {
    hide Live, Good, Pow2;
    if PassesChecks(granularity, address, b.layer) {
      IndexIsZero(granularity, address, b.layer);
      GranuleOnlyAtZero(granularity, address);
      NotInFirst(layers, tree, b);
      FreeElsewhere(tree, layers, 0, b, b.layer);
    }
  }

  /** A live block at an offset other than 0 starts behind the first block of its size. */
  lemma NotInFirst(layers: nat, tree: Cell, b: Block)
    requires Shape(tree, layers) && Good(tree, layers) && b in Live(tree, layers, 0) && b.offset != 0
    ensures b.offset >= Pow2(b.layer)
    ensures b.layer > 0 ==> b.offset >= ClearedTo(layers, b.layer, 0)
  {
    hide Live, Good, Pow2;
    LiveInside(tree, layers, 0, b);
    AlignedGap(0, b.offset, Pow2(b.layer));
  }

  /** What is freed exactly by a free at its own address. */
  ghost predicate FreedExactly(granularity: nat, layers: nat, tree: Cell, b: Block, bytes: nat)
    requires granularity > 0 && Shape(tree, layers)
    requires LayerFor(granularity, bytes) + granularity < 32
  {
    var tree' := TreeDeallocate(granularity, layers, tree, UnitOf(granularity, layers) * b.offset, bytes);
    Good(tree', layers) && Live(tree', layers, 0) == Live(tree, layers, 0) - {b}
  }

  /** Exactly when freeing a live block at the address that was handed out for it frees it and nothing
      else: when the block is at offset 0, and is not the lower one of two live granules of a leaf.
      Where the root does not fit and all addresses are 0, also for the upper granule of the first
      leaf when it is alone. */
  lemma FreeIsExact(granularity: nat, layers: nat, tree: Cell, b: Block, bytes: nat)
    requires 0 < granularity <= 16 && b.layer + granularity < 32
    requires Shape(tree, layers) && Good(tree, layers)
    requires b in Live(tree, layers, 0)
    requires bytes > 0 && LayerFor(granularity, bytes) == b.layer
    ensures var live := Live(tree, layers, 0);
            FreedExactly(granularity, layers, tree, b, bytes) <==>
              || (b.offset == 0 && !(b.layer == 0 && Block(0, 1) in live))
              || (UnitOf(granularity, layers) == 0 && b == Block(0, 1) && Block(0, 0) !in live)
  {
    hide Live, Good, Pow2, LayerFor, TreeDeallocate, PassesChecks, UnitOf;
    var unit := UnitOf(granularity, layers);
    if b.offset == 0 {
      assert unit * b.offset == 0;
      ZeroPasses(granularity, b.layer);
      PassedFree(granularity, layers, tree, 0, bytes);
      assert b == Block(b.layer, 0);
    } else if unit != 0 {
      MulMono(b.offset, 1, unit);
      FreeNotAtZero(granularity, layers, tree, b, unit * b.offset, bytes);
    } else {
      assert unit * b.offset == 0;
      FreeOfHidden(granularity, layers, tree, b, bytes);
    }
  }

  /** A block at another offset than 0 whose address is 0. */
  lemma FreeOfHidden(granularity: nat, layers: nat, tree: Cell, b: Block, bytes: nat)
    requires granularity > 0 && b.layer + granularity < 32
    requires Shape(tree, layers) && Good(tree, layers)
    requires b in Live(tree, layers, 0) && b.offset != 0
    requires bytes > 0 && LayerFor(granularity, bytes) == b.layer
    ensures var live, tree' := Live(tree, layers, 0), TreeDeallocate(granularity, layers, tree, 0, bytes);
            Good(tree', layers) && Live(tree', layers, 0) == live - {b} <==> b == Block(0, 1) && Block(0, 0) !in live
  {
    hide Live, Good, Pow2, LayerFor, TreeDeallocate, PassesChecks;
    var live := Live(tree, layers, 0);
    var kept := set x | x in live && x.offset >= ClearedTo(layers, b.layer, 0);
    ZeroPasses(granularity, b.layer);
    FreeOfAnySize(granularity, layers, tree, 0, bytes);
    LiveInside(tree, layers, 0, b);
    NotInFirst(layers, tree, b);
    FirstPowers();
    if b == Block(0, 1) {
      BesideUpper(layers, tree);
      assert Block(0, 0) in live ==> Block(0, 0) in live - {b} && Block(0, 0) !in kept;
      assert Block(0, 0) !in live ==> kept == live - {b};
    } else {
      assert b in kept;
    }
  }

  /** Beside a live upper granule of the first leaf, only its lower granule starts in the leaf. */
  lemma BesideUpper(layers: nat, tree: Cell)
    requires Shape(tree, layers) && Good(tree, layers) && Block(0, 1) in Live(tree, layers, 0)
    ensures forall x :: x in Live(tree, layers, 0) && x.offset < 2 ==> x == Block(0, 0) || x == Block(0, 1)
  {
    hide Live, Good, Pow2;
    FirstPowers();
    var b := Block(0, 1);
    forall x | x in Live(tree, layers, 0) && x.offset < 2
      ensures x == Block(0, 0) || x == b
    {
      if x != b {
        LiveDisjoint(tree, layers, 0, x, b);
        if x.layer > 0 {
          Pow2Mono(1, x.layer);
        }
      }
    }
  }

  /** An allocation and a free at the address it returned restore every mask of the tree if and only if
      the block was taken at offset 0, and not beside a live granule. */
  lemma AllocateThenFreeRestores(granularity: nat, layers: nat, tree: Cell, bytes: nat)
    requires 0 < granularity <= 16 && Shape(tree, layers) && Good(tree, layers)
    requires LayerFor(granularity, bytes) + granularity < 32
    requires TreeAllocate(granularity, layers, tree, bytes).1.Some?
    ensures var (tree', r) := TreeAllocate(granularity, layers, tree, bytes);
            var size := LayerFor(granularity, bytes);
            TreeDeallocate(granularity, layers, tree', r.value, bytes) == tree <==>
              AllocateFor(tree, layers, size).1 == 0 && !(size == 0 && Block(0, 1) in Live(tree, layers, 0))
  {
    hide Live, Good, Pow2, Bit, LayerFor, PassesChecks, AllocateFor, Deallocate, Shr, UnitOf, LowestFree;
    var size := LayerFor(granularity, bytes);
    var (tree', off) := AllocateFor(tree, layers, size);
    var b := Block(size, off);
    AllocateTakesLowest(tree, layers, 0, size);
    TakenWasFree(Live(tree, layers, 0), size, layers, off);
    FreeIsExact(granularity, layers, tree', b, bytes);
    assert Live(tree', layers, 0) - {b} == Live(tree, layers, 0);
    if off == 0 && !(size == 0 && Block(0, 1) in Live(tree, layers, 0)) {
      assert UnitOf(granularity, layers) * off == 0;
      ZeroPasses(granularity, size);
      IndexIsZero(granularity, 0, size);
      AllocateThenFree(tree, layers, 0, size);
    } else if b == Block(0, 1) {
      FirstTaken(tree, layers);
    }
  }

  lemma TakenWasFree(live: set<Block>, size: nat, layers: nat, off: nat)
    requires LowestFree(live, size, layers, 0, off)
    ensures Block(size, off) !in live
  {
    assert !Disjoint(Block(size, off), Block(size, off));
  }

  /** The upper granule of the first leaf is taken only when the lower one is live. */
  lemma FirstTaken(tree: Cell, layers: nat)
    requires Shape(tree, layers) && Good(tree, layers)
    requires LowestFree(Live(tree, layers, 0), 0, layers, 0, 1)
    ensures Block(0, 0) in Live(tree, layers, 0)
  {
    hide Live, Good, Pow2;
    FirstPowers();
    var live := Live(tree, layers, 0);
    assert Candidate(Block(0, 0), layers, 0);
    var x :| x in live && !Disjoint(x, Block(0, 0));
    assert Disjoint(x, Block(0, 1));
    if x.layer > 0 {
      Pow2Mono(1, x.layer);
    }
  }

  /** The shipped memory, with 15 layers and granules of 4 bytes, answers every request with address 0.
      Of two blocks of 8 bytes, a free of the second one takes back the first. */
  lemma ShippedSizeFreesAnother()
    ensures var (tree1, r1) := TreeAllocate(4, 15, Fresh(15), 8);
            var (tree2, r2) := TreeAllocate(4, 15, tree1, 8);
            && r1 == Some(0) && r2 == Some(0)
            && ShiftsDefined(4, 0, 8)
            && TreeDeallocate(4, 15, tree2, 0, 8) != tree1
            && Block(1, 0) in Live(tree1, 15, 0)
            && Block(1, 0) !in Live(TreeDeallocate(4, 15, tree2, 0, 8), 15, 0)
  {
    hide *;
    FreshIsEmpty(15, 0);
    ShippedRequest(Fresh(15), {});
    var tree1 := TreeAllocate(4, 15, Fresh(15), 8).0;
    ShippedRequest(tree1, {Block(1, 0)});
    var tree2 := TreeAllocate(4, 15, tree1, 8).0;
    ShippedUnit();
    ShippedFree(tree2);
  }

  /** The first two requests: the blocks differ, the answers do not. */
  lemma ShippedRequest(tree: Cell, live: set<Block>)
    requires Shape(tree, 15) && Good(tree, 15) && Live(tree, 15, 0) == live
    requires live == {} || live == {Block(1, 0)}
    ensures var (tree', r) := TreeAllocate(4, 15, tree, 8);
            && Good(tree', 15) && r == Some(0)
            && (if live == {} then Live(tree', 15, 0) == {Block(1, 0)} else Block(1, 0) in Live(tree', 15, 0))
  {
    hide Live, Good, Pow2, Bit, AllocateFor, LowestFree, HasRoom, UnitOf, LayerFor;
    ShippedUnit();
    ShippedRoom(tree, live);
    AllocateTakesLowest(tree, 15, 0, 1);
  }

  lemma ShippedFree(tree: Cell)
    requires Shape(tree, 15) && Good(tree, 15) && Block(1, 0) in Live(tree, 15, 0)
    requires LayerFor(4, 8) == 1
    ensures ShiftsDefined(4, 0, 8) && Block(1, 0) !in Live(TreeDeallocate(4, 15, tree, 0, 8), 15, 0)
  {
    hide Live, Good, Pow2, LayerFor, TreeDeallocate;
    ZeroPasses(4, 1);
    PassedFree(4, 15, tree, 0, 8);
  }

  lemma ShippedUnit()
    ensures UnitOf(4, 15) == 0 && LayerFor(4, 8) == 1
  {
    assert LayerFor(8, 8) == 0;
    assert Pow2(2) == 4;
    ShlPow2(2, 15);
    Pow2Mono(16, 17);
  }

  /** The first requests of the shipped memory. */
  lemma ShippedRoom(tree: Cell, live: set<Block>)
    requires Shape(tree, 15) && Good(tree, 15) && Live(tree, 15, 0) == live
    requires live == {} || live == {Block(1, 0)}
    ensures !Bit(tree.slots, 1)
    ensures forall off :: LowestFree(live, 1, 15, 0, off) && live == {} ==> off == 0
    ensures forall off :: LowestFree(live, 1, 15, 0, off) && live != {} ==> off != 0
  {
    hide Live, Good, Bit;
    assert Pow2(1) == 2 && Pow2(2) == 4;
    Pow2Mono(2, 15);
    SummaryExact(tree, 15, 0, 1);
    var first, second := Block(1, 0), Block(1, 2);
    assert Candidate(first, 15, 0) && Candidate(second, 15, 0);
    assert live == {} ==> Free(live, first);
    assert Free(live, second);
    assert !Disjoint(first, first);
  }

  // ---------------------------------------------------------------- the reference allocator

  /** The lowest free block of the size from `off` on, by trying one after the other. */
  function FirstFit(live: set<Block>, size: nat, layers: nat, off: nat): Option<nat>
    decreases Pow2(layers) - off
  {
    if off + Pow2(size) > Pow2(layers) then None
    else if Free(live, Block(size, off)) then Some(off)
    else FirstFit(live, size, layers, off + Pow2(size))
  }

  lemma AlignedNext(x: nat, p: nat)
    requires p > 0 && x % p == 0
    ensures (x + p) % p == 0
  {
    assert x + p == (x / p + 1) * p;
    DivModUnique(x + p, p, x / p + 1, 0);
  }

  lemma {:induction false} FirstFitFinds(live: set<Block>, size: nat, layers: nat, off: nat, want: nat)
    requires off % Pow2(size) == 0 && off <= want
    requires LowestFree(live, size, layers, 0, want)
    ensures FirstFit(live, size, layers, off) == Some(want)
    decreases want - off
  {
    hide Pow2, Free;
    var p := Pow2(size);
    if off < want {
      AlignedGap(off, want, p);
      assert Candidate(Block(size, off), layers, 0);
      AlignedNext(off, p);
      FirstFitFinds(live, size, layers, off + p, want);
    }
  }

  lemma {:induction false} FirstFitFindsNothing(live: set<Block>, size: nat, layers: nat, off: nat)
    requires off % Pow2(size) == 0
    requires !HasRoom(live, size, layers, 0)
    ensures FirstFit(live, size, layers, off) == None
    decreases Pow2(layers) - off
  {
    hide Pow2, Free;
    var p := Pow2(size);
    if off + p <= Pow2(layers) {
      assert Candidate(Block(size, off), layers, 0);
      AlignedNext(off, p);
      FirstFitFindsNothing(live, size, layers, off + p);
    }
  }

  datatype Op = Alloc(bytes: nat) | Dealloc(address: nat, bytes: nat)

  /** One operation of the reference allocator. */
  function RefStep(granularity: nat, layers: nat, live: set<Block>, op: Op): (set<Block>, Option<nat>)
    requires granularity > 0
  {
    match op
    case Alloc(bytes) =>
      if bytes == 0 then (live, None) else
      var size := LayerFor(granularity, bytes);
      (match FirstFit(live, size, layers, 0)
       case None => (live, None)
       case Some(off) => (live + {Block(size, off)}, Some(UnitOf(granularity, layers) * off)))
    case Dealloc(address, bytes) =>
      // the address checks drop all other frees; at granularities up to 8 only address 0 passes
      var size := LayerFor(granularity, bytes);
      if bytes == 0 || !PassesChecks(granularity, address, size) then (live, None)
      else (live - {Block(size, 0)}, None)
  }

  function TreeStep(granularity: nat, layers: nat, tree: Cell, op: Op): (r: (Cell, Option<nat>))
    requires granularity > 0 && Shape(tree, layers)
    requires op.Dealloc? ==> ShiftsDefined(granularity, op.address, op.bytes)
    ensures Shape(r.0, layers)
  {
    match op
    case Alloc(bytes) => TreeAllocate(granularity, layers, tree, bytes)
    case Dealloc(address, bytes) => (TreeDeallocate(granularity, layers, tree, address, bytes), None)
  }

  /** What the allocator asks of its user: frees have sizes for which the shifts are defined, and
      a free that passes the checks names the size of the live block at offset 0, which is not
      the lower one of two live granules of a leaf. */
  predicate Honest(granularity: nat, live: set<Block>, op: Op)
    requires granularity > 0
  {
    op.Dealloc? ==>
      var size := LayerFor(granularity, op.bytes);
      && ShiftsDefined(granularity, op.address, op.bytes)
      && (op.bytes > 0 && PassesChecks(granularity, op.address, size) ==>
            Block(size, 0) in live && !(size == 0 && Block(0, 1) in live))
  }

  lemma NothingLarger(live: set<Block>, size: nat, layers: nat)
    requires size > layers
    ensures FirstFit(live, size, layers, 0) == None
  {
    Pow2Mono(layers, size);
  }

  lemma AllocateRefines(granularity: nat, layers: nat, tree: Cell, bytes: nat)
    requires granularity > 0 && Shape(tree, layers) && Good(tree, layers)
    ensures var live := Live(tree, layers, 0);
            var (tree', r) := TreeAllocate(granularity, layers, tree, bytes);
            && Good(tree', layers)
            && (Live(tree', layers, 0), r) == RefStep(granularity, layers, live, Alloc(bytes))
  {
    hide Live, Good, Pow2, Bit, LayerFor, HasRoom, LowestFree, FirstFit, AllocateFor;
    if bytes > 0 {
      var live, size := Live(tree, layers, 0), LayerFor(granularity, bytes);
      if size > layers {
        NothingLarger(live, size, layers);
      } else {
        SummaryExact(tree, layers, 0, size);
        if Bit(tree.slots, size) {
          FirstFitFindsNothing(live, size, layers, 0);
        } else {
          AllocateTakesLowest(tree, layers, 0, size);
          FirstFitFinds(live, size, layers, 0, AllocateFor(tree, layers, size).1);
        }
      }
    }
  }

  lemma StepRefines(granularity: nat, layers: nat, tree: Cell, op: Op)
    requires granularity > 0 && Shape(tree, layers) && Good(tree, layers)
    requires Honest(granularity, Live(tree, layers, 0), op)
    ensures var (tree', r) := TreeStep(granularity, layers, tree, op);
            && Good(tree', layers)
            && (Live(tree', layers, 0), r) == RefStep(granularity, layers, Live(tree, layers, 0), op)
  {
    hide Live, Good, LayerFor, PassesChecks;
    match op
    case Alloc(bytes) =>
      AllocateRefines(granularity, layers, tree, bytes);
    case Dealloc(address, bytes) =>
      var size := LayerFor(granularity, bytes);
      if bytes > 0 && PassesChecks(granularity, address, size) {
        PassedFree(granularity, layers, tree, address, bytes);
        var live := Live(tree, layers, 0);
        assert live - Released(size, 0) == live - {Block(size, 0)};
      }
  }

  /** A granule freed with the size of 4 granules: the masks of a memory of 4 granules break. */
  lemma WrongSizeBreaksMasks()
    ensures var tree := TreeAllocate(1, 2, Fresh(2), 1).0;
            && Good(tree, 2) && Live(tree, 2, 0) == {Block(0, 0)}
            && ShiftsDefined(1, 0, 4)
            && !Good(TreeDeallocate(1, 2, tree, 0, 4), 2)
  {
    hide Live, Good, TreeAllocate, TreeDeallocate, Fresh;
    assert Pow2(0) == 1 && Pow2(2) == 4;
    assert LayerFor(1, 1) == 0;
    assert LayerFor(1, 4) == 2 by {
      assert LayerFor(2, 4) == 1;
    }
    FreshIsEmpty(2, 0);
    AllocateRefines(1, 2, Fresh(2), 1);
    ZeroPasses(1, 2);
    FreeOfAnySize(1, 2, TreeAllocate(1, 2, Fresh(2), 1).0, 0, 4);
  }

  predicate HonestRun(granularity: nat, layers: nat, live: set<Block>, ops: seq<Op>)
    requires granularity > 0
    decreases |ops|
  {
    ops == [] ||
    (Honest(granularity, live, ops[0])
     && HonestRun(granularity, layers, RefStep(granularity, layers, live, ops[0]).0, ops[1..]))
  }

  function RefRun(granularity: nat, layers: nat, live: set<Block>, ops: seq<Op>): (set<Block>, seq<Option<nat>>)
    requires granularity > 0
    decreases |ops|
  {
    if ops == [] then (live, []) else
    var (live', r) := RefStep(granularity, layers, live, ops[0]);
    var (end, rs) := RefRun(granularity, layers, live', ops[1..]);
    (end, [r] + rs)
  }

  /** The shifts of all frees are defined. */
  predicate FreesFit(granularity: nat, ops: seq<Op>)
    requires granularity > 0
  {
    forall op :: op in ops && op.Dealloc? ==> ShiftsDefined(granularity, op.address, op.bytes)
  }

  lemma FreesFitCons(granularity: nat, op: Op, rest: seq<Op>)
    requires granularity > 0
    ensures FreesFit(granularity, [op] + rest) <==>
      (op.Dealloc? ==> ShiftsDefined(granularity, op.address, op.bytes)) && FreesFit(granularity, rest)
  {
    assert forall o :: o in [op] + rest <==> o == op || o in rest;
  }

  function TreeRun(granularity: nat, layers: nat, tree: Cell, ops: seq<Op>): (r: (Cell, seq<Option<nat>>))
    requires granularity > 0 && Shape(tree, layers)
    requires FreesFit(granularity, ops)
    ensures Shape(r.0, layers)
    decreases |ops|
  {
    if ops == [] then (tree, []) else
    var (tree', r) := TreeStep(granularity, layers, tree, ops[0]);
    var (end, rs) := TreeRun(granularity, layers, tree', ops[1..]);
    (end, [r] + rs)
  }

  lemma {:induction false} HonestSizes(granularity: nat, layers: nat, live: set<Block>, ops: seq<Op>)
    requires granularity > 0 && HonestRun(granularity, layers, live, ops)
    ensures FreesFit(granularity, ops)
    decreases |ops|
  {
    if ops != [] {
      HonestSizes(granularity, layers, RefStep(granularity, layers, live, ops[0]).0, ops[1..]);
      assert forall op :: op in ops ==> op == ops[0] || op in ops[1..];
    }
  }

  /** Every honest run on a good tree gives the answers of the reference allocator, and ends in
      a good tree that accounts for the reference allocator's live blocks. */
  lemma {:induction false} RunRefines(granularity: nat, layers: nat, tree: Cell, ops: seq<Op>)
    requires granularity > 0 && Shape(tree, layers) && Good(tree, layers)
    requires HonestRun(granularity, layers, Live(tree, layers, 0), ops)
    ensures FreesFit(granularity, ops)
    ensures var (tree', rs) := TreeRun(granularity, layers, tree, ops);
            && Good(tree', layers)
            && (Live(tree', layers, 0), rs) == RefRun(granularity, layers, Live(tree, layers, 0), ops)
    decreases |ops|
  {
    hide Live, Good, LayerFor, TreeStep, RefStep;
    HonestSizes(granularity, layers, Live(tree, layers, 0), ops);
    if ops != [] {
      StepRefines(granularity, layers, tree, ops[0]);
      RunRefines(granularity, layers, TreeStep(granularity, layers, tree, ops[0]).0, ops[1..]);
    }
  }

  lemma {:induction false} FreshIsEmpty(layer: nat, base: nat)
    requires layer > 0
    ensures Good(Fresh(layer), layer) && Fresh(layer).slots == 0
    ensures Live(Fresh(layer), layer, base) == {}
  {
    if layer > 1 {
      FreshIsEmpty(layer - 1, base);
      FreshIsEmpty(layer - 1, base + Pow2(layer - 1));
      CombineZero(layer);
      MaskBit(layer, 0);
    }
  }

  /** Safety over whole runs: from an empty memory, after any honest run, the summary of every
      cell is exact, live blocks are inside the memory, aligned, and do not overlap. */
  lemma RunIsSafe(granularity: nat, layers: nat, ops: seq<Op>)
    requires granularity > 0 && layers > 0
    requires HonestRun(granularity, layers, {}, ops)
    ensures FreesFit(granularity, ops)
    ensures var (tree, rs) := TreeRun(granularity, layers, Fresh(layers), ops);
            var (live, refs) := RefRun(granularity, layers, {}, ops);
            && rs == refs
            && (forall b :: b in live ==> Candidate(b, layers, 0))
            && (forall a, b :: a in live && b in live && a != b ==> Disjoint(a, b))
            && EveryCellExact(tree, layers, 0, live)
  {
    FreshIsEmpty(layers, 0);
    RunRefines(granularity, layers, Fresh(layers), ops);
    var tree := TreeRun(granularity, layers, Fresh(layers), ops).0;
    var live := Live(tree, layers, 0);
    forall b | b in live
      ensures Candidate(b, layers, 0)
    {
      LiveInside(tree, layers, 0, b);
    }
    forall a, b | a in live && b in live && a != b
      ensures Disjoint(a, b)
    {
      LiveDisjoint(tree, layers, 0, a, b);
    }
    GoodIsExact(tree, layers, 0, live);
  }

  /** Why the lower of two live granules must not be freed: with both granules of a leaf
      live, freeing the lower one lets the upper one be handed out a second time. */
  lemma DoubleAllocation()
    ensures var ops := [Alloc(1)] + ([Alloc(1)] + ([Dealloc(0, 1)] + ([Alloc(1)] + ([Alloc(1)] + []))));
            && FreesFit(1, ops)
            && TreeRun(1, 1, Fresh(1), ops).1
               == [Some(0)] + ([Some(1)] + ([None] + ([Some(0)] + ([Some(1)] + []))))
  {
    var t0, t1, t2 := Leaf(0, false), Leaf(2, true), Leaf(3, true);
    LeafSteps();
    hide TreeStep, TreeRun, FreesFit, LayerFor;
    RunNothing(t2);
    var ops1 := [Alloc(1)] + [];
    var ops2 := [Alloc(1)] + ops1;
    var ops3 := [Dealloc(0, 1)] + ops2;
    var ops4 := [Alloc(1)] + ops3;
    RunStep(t1, Alloc(1), [], t2, Some(1));
    RunStep(t0, Alloc(1), ops1, t1, Some(0));
    RunStep(t2, Dealloc(0, 1), ops2, t0, None);
    RunStep(t1, Alloc(1), ops3, t2, Some(1));
    RunStep(t0, Alloc(1), ops4, t1, Some(0));
  }

  /** The steps of the run above on the one leaf of a memory of two granules. */
  lemma LeafSteps()
    ensures var t0, t1, t2 := Leaf(0, false), Leaf(2, true), Leaf(3, true);
            && LayerFor(1, 1) == 0
            && TreeStep(1, 1, t0, Alloc(1)) == (t1, Some(0))
            && TreeStep(1, 1, t1, Alloc(1)) == (t2, Some(1))
            && TreeStep(1, 1, t2, Dealloc(0, 1)) == (t0, None)
  {
    LeafBits(0);
    LeafBits(2);
    ZeroPasses(1, 0);
    IndexIsZero(1, 0, 0);
  }

  lemma RunNothing(tree: Cell)
    requires Shape(tree, 1)
    ensures FreesFit(1, []) && TreeRun(1, 1, tree, []) == (tree, [])
  {
  }

  lemma RunStep(tree: Cell, op: Op, rest: seq<Op>, tree': Cell, r: Option<nat>)
    requires Shape(tree, 1) && Shape(tree', 1)
    requires FreesFit(1, rest) && (op.Dealloc? ==> ShiftsDefined(1, op.address, op.bytes))
    requires TreeStep(1, 1, tree, op) == (tree', r)
    ensures FreesFit(1, [op] + rest)
    ensures TreeRun(1, 1, tree, [op] + rest)
         == (TreeRun(1, 1, tree', rest).0, [r] + TreeRun(1, 1, tree', rest).1)
  {
    hide TreeStep;
    FreesFitCons(1, op, rest);
    assert ([op] + rest)[1..] == rest;
  }
}
