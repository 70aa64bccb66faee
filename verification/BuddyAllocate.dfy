/** What allocation and deallocation do to the live blocks of a tree. */
module BuddyAllocate {
  import opened Bits
  import opened BuddyTree

  /** `off` is the lowest offset at which a block of the size is free. */
  ghost predicate LowestFree(live: set<Block>, size: nat, layer: nat, base: nat, off: nat) {
    && Candidate(Block(size, off), layer, base)
    && Free(live, Block(size, off))
    && forall other: nat :: Candidate(Block(size, other), layer, base) && Free(live, Block(size, other))
         ==> off <= other
  }

  /** Allocation where the summary says there is room takes the lowest free block of the
      size, marks exactly that block, and keeps the invariant. */
  lemma {:induction false} AllocateTakesLowest(c: Cell, layer: nat, base: nat, size: nat)
    requires Shape(c, layer) && Good(c, layer) && base % Pow2(layer) == 0
    requires size <= layer && !Bit(c.slots, size)
    ensures var (c', off) := AllocateFor(c, layer, size);
            && Good(c', layer)
            && LowestFree(Live(c, layer, base), size, layer, base, base + off)
            && Live(c', layer, base) == Live(c, layer, base) + {Block(size, base + off)}
  {
    if size == layer {
      AllocateWhole(c, layer, base);
    } else if c.Leaf? {
      AllocateGranule(c, base);
    } else {
      AllocateBelow(c, layer, base, size);
    }
  }

  lemma AllocateWhole(c: Cell, layer: nat, base: nat)
    requires Shape(c, layer) && Good(c, layer) && base % Pow2(layer) == 0
    requires !Bit(c.slots, layer)
    ensures var (c', off) := AllocateFor(c, layer, layer);
            && Good(c', layer) && off == 0
            && LowestFree(Live(c, layer, base), layer, layer, base, base)
            && Live(c', layer, base) == Live(c, layer, base) + {Block(layer, base)}
  {
    hide Live, Pow2, Mask, Combine, Bit;
    TopBitMeansUsed(c, layer, base);
    EmptyTakenWhole(c, layer, base);
    assert Candidate(Block(layer, base), layer, base);
  }

  /** Setting the mask of an empty cell. */
  lemma EmptyTakenWhole(c: Cell, layer: nat, base: nat)
    requires Shape(c, layer) && Good(c, layer) && Live(c, layer, base) == {} && c.slots == 0
    ensures var (c', off) := AllocateFor(c, layer, layer);
            Good(c', layer) && off == 0 && Live(c', layer, base) == {Block(layer, base)}
    ensures base % Pow2(layer) == 0 ==> Candidate(Block(layer, base), layer, base)
  {
    if c.Node? {
      EmptyChildren(c, layer, base);
    }
  }

  lemma EmptyChildren(c: Cell, layer: nat, base: nat)
    requires c.Node? && Shape(c, layer) && Good(c, layer) && c.slots == 0
    ensures c.rightSlots == 0 && c.leftSlots == 0
  {
    hide Pow2, Combine, Bit;
    TopBitMeansUsed(c, layer, base);
    MaskBit(layer, 0);
    TopBitMeansUsed(c.right, layer - 1, base);
    TopBitMeansUsed(c.left, layer - 1, base + Pow2(layer - 1));
  }

  lemma AllocateGranule(c: Cell, base: nat)
    requires c.Leaf? && Good(c, 1) && !Bit(c.slots, 0)
    ensures var (c', off) := AllocateFor(c, 1, 0);
            && Good(c', 1)
            && LowestFree(Live(c, 1, base), 0, 1, base, base + off)
            && Live(c', 1, base) == Live(c, 1, base) + {Block(0, base + off)}
  {
    LeafBits(c.slots);
    assert Pow2(0) == 1 && Pow2(1) == 2;
    var (c', off) := AllocateFor(c, 1, 0);
    assert Candidate(Block(0, base + off), 1, base);
    if off == 1 {
      assert !Disjoint(Block(0, base), Block(0, base));
    }
  }

  lemma {:induction false} AllocateBelow(c: Cell, layer: nat, base: nat, size: nat)
    requires c.Node? && Shape(c, layer) && Good(c, layer) && base % Pow2(layer) == 0
    requires size < layer && !Bit(c.slots, size)
    ensures var (c', off) := AllocateFor(c, layer, size);
            && Good(c', layer)
            && LowestFree(Live(c, layer, base), size, layer, base, base + off)
            && Live(c', layer, base) == Live(c, layer, base) + {Block(size, base + off)}
    decreases c, 0
  {
    hide Live, LowestFree, Pow2, Bit, Mask, Combine;
    var mid := base + Pow2(layer - 1);
    NotWhole(c, layer, size);
    LeftBase(base, layer);
    ClearBelow(c, layer, size);
    if !Bit(c.rightSlots, size) {
      AllocateTakesLowest(c.right, layer - 1, base, size);
      var (right', off) := AllocateFor(c.right, layer - 1, size);
      RightTakes(c, layer, base, size, right', base + off);
    } else {
      AllocateTakesLowest(c.left, layer - 1, mid, size);
      var (left', off) := AllocateFor(c.left, layer - 1, size);
      LeftTakes(c, layer, base, size, left', mid + off);
    }
  }

  lemma RightTakes(c: Cell, layer: nat, base: nat, size: nat, right': Cell, off: nat)
    requires c.Node? && Shape(c, layer) && Good(c, layer) && base % Pow2(layer) == 0 && !Whole(c, layer)
    requires size < layer && Shape(right', layer - 1) && Good(right', layer - 1)
    requires LowestFree(Live(c.right, layer - 1, base), size, layer - 1, base, off)
    requires Live(right', layer - 1, base) == Live(c.right, layer - 1, base) + {Block(size, off)}
    ensures var c' := Updated(right', c.left, layer);
            && Good(c', layer)
            && LowestFree(Live(c, layer, base), size, layer, base, off)
            && Live(c', layer, base) == Live(c, layer, base) + {Block(size, off)}
  {
    hide Live, LowestFree, Pow2, Combine;
    UpdatedIsGood(right', c.left, layer, base);
    LowestInRight(c, layer, base, size, off);
    LiveOfNode(c, layer, base);
  }

  lemma LeftTakes(c: Cell, layer: nat, base: nat, size: nat, left': Cell, off: nat)
    requires c.Node? && Shape(c, layer) && Good(c, layer) && base % Pow2(layer) == 0 && !Whole(c, layer)
    requires size < layer && Bit(c.right.slots, size) && Shape(left', layer - 1) && Good(left', layer - 1)
    requires LowestFree(Live(c.left, layer - 1, base + Pow2(layer - 1)), size, layer - 1, base + Pow2(layer - 1), off)
    requires Live(left', layer - 1, base + Pow2(layer - 1))
          == Live(c.left, layer - 1, base + Pow2(layer - 1)) + {Block(size, off)}
    ensures var c' := Updated(c.right, left', layer);
            && Good(c', layer)
            && LowestFree(Live(c, layer, base), size, layer, base, off)
            && Live(c', layer, base) == Live(c, layer, base) + {Block(size, off)}
  {
    hide Live, LowestFree, Pow2, Combine, Bit;
    UpdatedIsGood(c.right, left', layer, base);
    LowestInLeft(c, layer, base, size, off);
    LiveOfNode(c, layer, base);
  }

  lemma NotWhole(c: Cell, layer: nat, size: nat)
    requires Shape(c, layer) && size <= layer && !Bit(c.slots, size)
    ensures !Whole(c, layer)
  {
    MaskBit(layer, size);
    LeafBits(c.slots);
  }

  /** A clear bit below the top comes from one of the children. */
  lemma ClearBelow(c: Cell, layer: nat, size: nat)
    requires c.Node? && Shape(c, layer) && Good(c, layer) && size < layer && !Bit(c.slots, size)
    ensures !Bit(c.right.slots, size) || !Bit(c.left.slots, size)
  {
    NotWhole(c, layer, size);
    WholeIsNotCombined(c, layer);
    SlotsBound(c.right, layer - 1);
    SlotsBound(c.left, layer - 1);
    CombineBit(c.rightSlots, c.leftSlots, layer, size);
  }

  /** `update_alloc_slots` restores the invariant from good children, and such a cell is
      never taken for one that was allocated in one piece. */
  lemma UpdatedIsGood(right: Cell, left: Cell, layer: nat, base: nat)
    requires layer > 1 && Shape(right, layer - 1) && Shape(left, layer - 1)
    requires Good(right, layer - 1) && Good(left, layer - 1)
    ensures var c := Updated(right, left, layer);
            && Good(c, layer) && !Whole(c, layer)
            && Live(c, layer, base) == Live(right, layer - 1, base) + Live(left, layer - 1, base + Pow2(layer - 1))
  {
    hide Live, Combine, Mask, Pow2;
    WholeIsNotCombined(Updated(right, left, layer), layer);
    LiveOfNode(Updated(right, left, layer), layer, base);
  }

  lemma LowestInRight(c: Cell, layer: nat, base: nat, size: nat, off: nat)
    requires c.Node? && Shape(c, layer) && Good(c, layer) && base % Pow2(layer) == 0 && !Whole(c, layer)
    requires size < layer && LowestFree(Live(c.right, layer - 1, base), size, layer - 1, base, off)
    ensures LowestFree(Live(c, layer, base), size, layer, base, off)
  {
    hide Live, Good, Shape, Free, Whole;
    forall x: nat
      ensures x == off ==> Candidate(Block(size, x), layer, base) && Free(Live(c, layer, base), Block(size, x))
      ensures Candidate(Block(size, x), layer, base) && Free(Live(c, layer, base), Block(size, x)) ==> off <= x
    {
      CandidateSplit(Block(size, x), layer, base);
      FreeInHalf(c, layer, base, Block(size, x));
    }
  }

  lemma LowestInLeft(c: Cell, layer: nat, base: nat, size: nat, off: nat)
    requires c.Node? && Shape(c, layer) && Good(c, layer) && base % Pow2(layer) == 0 && !Whole(c, layer)
    requires size < layer && Bit(c.right.slots, size)
    requires LowestFree(Live(c.left, layer - 1, base + Pow2(layer - 1)), size, layer - 1, base + Pow2(layer - 1), off)
    ensures LowestFree(Live(c, layer, base), size, layer, base, off)
  {
    LeftBase(base, layer);
    SummaryExact(c.right, layer - 1, base, size);
    OnlyInLeft(c, layer, base, size);
  }

  lemma OnlyInLeft(c: Cell, layer: nat, base: nat, size: nat)
    requires c.Node? && Shape(c, layer) && Good(c, layer) && base % Pow2(layer) == 0 && !Whole(c, layer)
    requires size < layer && !HasRoom(Live(c.right, layer - 1, base), size, layer - 1, base)
    ensures var mid := base + Pow2(layer - 1);
            forall x: nat ::
              Candidate(Block(size, x), layer, base) && Free(Live(c, layer, base), Block(size, x)) <==>
              Candidate(Block(size, x), layer - 1, mid) && Free(Live(c.left, layer - 1, mid), Block(size, x))
  {
    hide Live, Good, Free, Whole, Candidate, Pow2;
    var mid := base + Pow2(layer - 1);
    forall x: nat
      ensures Candidate(Block(size, x), layer, base) && Free(Live(c, layer, base), Block(size, x)) <==>
              Candidate(Block(size, x), layer - 1, mid) && Free(Live(c.left, layer - 1, mid), Block(size, x))
    {
      CandidateSplit(Block(size, x), layer, base);
      FreeInHalf(c, layer, base, Block(size, x));
    }
  }
}
