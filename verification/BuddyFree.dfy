/** Deallocation as the public interface reaches it: the descent with index 0, which
    always turns to the lower half. */
module BuddyFree {
  import opened Bits
  import opened BuddyTree
  import opened BuddyAllocate

  /** The blocks that go when the live block of layer `target` at `base` is freed.  A leaf
      clears its whole mask with its lower granule, so the upper one goes as well. */
  function Released(target: nat, base: nat): set<Block> {
    {Block(target, base)} + (if target == 0 then {Block(0, base + 1)} else {})
  }

  /** The layer of the cell that a descent with index 0 clears.  Sizes beyond the root end in the
      leaf, which looks at their lowest bit. */
  function ClearedLayer(layer: nat, target: nat): nat {
    if target <= layer then target else target % 2
  }

  /** The end of the range that is cleared: a leaf is cleared as a whole. */
  function ClearedTo(layer: nat, target: nat, base: nat): nat {
    base + Pow2(if ClearedLayer(layer, target) == 0 then 1 else ClearedLayer(layer, target))
  }

  /** No live block is only a part of the cell that is cleared.  In a leaf cleared for its own layer
      this concerns the lower granule alone. */
  predicate ClearsNoPart(live: set<Block>, cleared: nat, base: nat) {
    if cleared == 0 then true
    else if cleared == 1 then Block(0, base) !in live
    else forall x :: x in live && x.offset < base + Pow2(cleared) ==> x.layer >= cleared
  }

  /** What a descent with index 0 does, for any size: the invariant is kept if and only if no live
      block is a part of the cell that is cleared, and then the blocks that start in its range go. */
  lemma {:induction false} FreeFromBase(c: Cell, layer: nat, base: nat, target: nat)
    requires Shape(c, layer) && Good(c, layer) && base % Pow2(layer) == 0
    ensures var c', live := Deallocate(c, layer, 0, target), Live(c, layer, base);
            && (Good(c', layer) <==> ClearsNoPart(live, ClearedLayer(layer, target), base))
            && (Good(c', layer) ==>
                  Live(c', layer, base) == set x | x in live && x.offset >= ClearedTo(layer, target, base))
  {
    if c.Leaf? {
      assert Pow2(1) == 2;
    } else if target == layer {
      FreeCell(c, layer, base);
    } else {
      FreeBelow(c, layer, base, target);
    }
  }

  /** Clearing a cell above the bottom is right if it is empty or allocated in one piece. */
  lemma FreeCell(c: Cell, layer: nat, base: nat)
    requires c.Node? && Shape(c, layer) && Good(c, layer) && base % Pow2(layer) == 0
    ensures var c', live := Deallocate(c, layer, 0, layer), Live(c, layer, base);
            && (Good(c', layer) <==> ClearsNoPart(live, layer, base))
            && (Good(c', layer) ==>
                  Live(c', layer, base) == set x | x in live && x.offset >= base + Pow2(layer))
  {
    hide Combine, Pow2;
    var live := Live(c, layer, base);
    MaskBit(layer, 0);
    CombineZero(layer);
    WholeIsNotCombined(c, layer);
    TopBitMeansUsed(c.right, layer - 1, base);
    TopBitMeansUsed(c.left, layer - 1, base + Pow2(layer - 1));
    var c' := Deallocate(c, layer, 0, layer);
    if Good(c', layer) {
      TopBitMeansUsed(c', layer, base);
    }
    forall x | x in live
      ensures x.offset < base + Pow2(layer) && (x.layer >= layer <==> Whole(c, layer))
    {
      LiveInside(c, layer, base, x);
      if !Whole(c, layer) {
        LiveInsideNode(c, layer, base, x);
      }
    }
  }

  lemma {:induction false} FreeBelow(c: Cell, layer: nat, base: nat, target: nat)
    requires c.Node? && Shape(c, layer) && Good(c, layer) && base % Pow2(layer) == 0 && target != layer
    ensures var c', live := Deallocate(c, layer, 0, target), Live(c, layer, base);
            && (Good(c', layer) <==> ClearsNoPart(live, ClearedLayer(layer, target), base))
            && (Good(c', layer) ==>
                  Live(c', layer, base) == set x | x in live && x.offset >= ClearedTo(layer, target, base))
    decreases c, 0
  {
    hide Live, Pow2, Combine, Mask;
    BitZero(layer);
    LeftBase(base, layer);
    FreeFromBase(c.right, layer - 1, base, target);
    var right' := Deallocate(c.right, layer - 1, 0, target);
    if Good(right', layer - 1) {
      UpdatedIsGood(right', c.left, layer, base);
    }
    LowerHalfCleared(c, layer, base, target);
  }

  /** The range that is cleared lies in the lower half. */
  lemma LowerHalfCleared(c: Cell, layer: nat, base: nat, target: nat)
    requires c.Node? && Shape(c, layer) && Good(c, layer) && base % Pow2(layer) == 0 && target != layer
    ensures var cleared, to := ClearedLayer(layer, target), ClearedTo(layer, target, base);
            var live, lower, upper :=
              Live(c, layer, base), Live(c.right, layer - 1, base), Live(c.left, layer - 1, base + Pow2(layer - 1));
            && (ClearsNoPart(live, cleared, base) <==> ClearsNoPart(lower, cleared, base))
            && (set x | x in live && x.offset >= to) == (set x | x in lower && x.offset >= to) + upper
  {
    hide Live, Combine;
    var cleared, to := ClearedLayer(layer, target), ClearedTo(layer, target, base);
    var mid := base + Pow2(layer - 1);
    LeftBase(base, layer);
    Pow2Mono(cleared, layer - 1);
    Pow2Mono(1, layer - 1);
    forall x | x in Live(c.left, layer - 1, mid)
      ensures x.offset >= mid
    {
      LiveInside(c.left, layer - 1, mid, x);
    }
    if Whole(c, layer) {
      LiveOfWhole(c, layer, base);
    } else {
      LiveOfNode(c, layer, base);
    }
  }

  lemma LiveOfWhole(c: Cell, layer: nat, base: nat)
    requires c.Node? && Shape(c, layer) && Good(c, layer) && Whole(c, layer)
    ensures Live(c, layer, base) == {Block(layer, base)}
    ensures Live(c.right, layer - 1, base) == {} && Live(c.left, layer - 1, base + Pow2(layer - 1)) == {}
  {
    hide Pow2, Combine;
    MaskBit(layer, 0);
    WholeIsNotCombined(c, layer);
    TopBitMeansUsed(c.right, layer - 1, base);
    TopBitMeansUsed(c.left, layer - 1, base + Pow2(layer - 1));
  }

  /** Freeing the live block at the base. */
  lemma FreeFirst(c: Cell, layer: nat, base: nat, target: nat)
    requires layer > 0 && Shape(c, layer) && Good(c, layer) && base % Pow2(layer) == 0
    requires Block(target, base) in Live(c, layer, base)
    ensures var c' := Deallocate(c, layer, 0, target);
            && Good(c', layer)
            && Live(c', layer, base) == Live(c, layer, base) - Released(target, base)
  {
    hide Live, Deallocate, Candidate, Pow2;
    var b, live := Block(target, base), Live(c, layer, base);
    LiveInside(c, layer, base, b);
    FreeFromBase(c, layer, base, target);
    forall x | x in live
      ensures x.offset >= ClearedTo(layer, target, base) <==> x !in Released(target, base)
      ensures target > 0 && x.offset < base + Pow2(target) ==> x == b
    {
      BesideFirst(c, layer, base, target, x);
    }
  }

  /** Everything live beside the block at the base starts at its end or later. */
  lemma BesideFirst(c: Cell, layer: nat, base: nat, target: nat, x: Block)
    requires layer > 0 && Shape(c, layer) && Good(c, layer) && base % Pow2(layer) == 0
    requires Block(target, base) in Live(c, layer, base) && x in Live(c, layer, base) && target <= layer
    ensures x.offset >= ClearedTo(layer, target, base) <==> x !in Released(target, base)
    ensures target > 0 && x.offset < base + Pow2(target) ==> x == Block(target, base)
  {
    hide Live, Pow2, Good, Shape;
    var b := Block(target, base);
    LiveInside(c, layer, base, x);
    FirstPowers();
    if x != b {
      LiveDisjoint(c, layer, base, b, x);
      if target == 0 && x.offset == base + 1 {
        OddIsGranule(layer, base, x);
      }
    }
  }

  lemma FirstPowers()
    ensures Pow2(0) == 1 && Pow2(1) == 2
  {
  }

  lemma OddIsGranule(layer: nat, base: nat, x: Block)
    requires layer > 0 && base % Pow2(layer) == 0 && x.offset % Pow2(x.layer) == 0 && x.offset == base + 1
    ensures x.layer == 0
  {
    FirstPowers();
    AlignedDown(base, layer, 1);
    if x.layer > 0 {
      AlignedDown(x.offset, x.layer, 1);
    }
  }

  /** A block that starts behind the range that is cleared stays live. */
  lemma {:induction false} FreeElsewhere(c: Cell, layer: nat, base: nat, b: Block, target: nat)
    requires Shape(c, layer) && Good(c, layer) && base % Pow2(layer) == 0
    requires b in Live(c, layer, base) && b.offset >= ClearedTo(layer, target, base)
    ensures b in Live(Deallocate(c, layer, 0, target), layer, base)
  {
    LiveInside(c, layer, base, b);
    if c.Node? && target != layer {
      FreeElsewhereBelow(c, layer, base, b, target);
    }
  }

  lemma {:induction false} FreeElsewhereBelow(c: Cell, layer: nat, base: nat, b: Block, target: nat)
    requires c.Node? && Shape(c, layer) && Good(c, layer) && base % Pow2(layer) == 0 && target != layer
    requires b in Live(c, layer, base) && b.offset >= ClearedTo(layer, target, base)
    ensures b in Live(Deallocate(c, layer, 0, target), layer, base)
    decreases c, 0
  {
    NotFirst(c, layer, base, b);
    hide Live, Pow2, Combine, Mask, Whole;
    BitZero(layer);
    LeftBase(base, layer);
    LiveOfNode(c, layer, base);
    var right' := Deallocate(c.right, layer - 1, 0, target);
    if b in Live(c.right, layer - 1, base) {
      FreeElsewhere(c.right, layer - 1, base, b, target);
    }
    NotWholeUpdated(right', c.left, layer);
    LiveOfNode(Updated(right', c.left, layer), layer, base);
  }

  lemma NotFirst(c: Cell, layer: nat, base: nat, b: Block)
    requires Shape(c, layer) && b in Live(c, layer, base) && b.offset > base && c.Node?
    ensures !Whole(c, layer)
  {
  }

  lemma NotWholeUpdated(right: Cell, left: Cell, layer: nat)
    requires layer > 1 && Shape(left, layer - 1) && Good(left, layer - 1)
    ensures !Whole(Updated(right, left, layer), layer)
  {
    if right.slots == 0 {
      SlotsBound(left, layer - 1);
      MaskBit(layer, 0);
      CombineBit(0, left.slots, layer, 0);
      BitZero(0);
    }
  }

  /** An allocation that lands at the base is taken back exactly by freeing it. */
  lemma {:induction false} AllocateThenFree(c: Cell, layer: nat, base: nat, size: nat)
    requires Shape(c, layer) && Good(c, layer) && base % Pow2(layer) == 0
    requires size <= layer && !Bit(c.slots, size)
    requires AllocateFor(c, layer, size).1 == 0
    requires size == 0 ==> Block(0, base + 1) !in Live(c, layer, base)
    ensures Deallocate(AllocateFor(c, layer, size).0, layer, 0, size) == c
  {
    if size == layer {
      TopBitMeansUsed(c, layer, base);
    } else if c.Leaf? {
      LeafBits(c.slots);
    } else {
      NotWhole(c, layer, size);
      WholeIsNotCombined(c, layer);
      ClearBelow(c, layer, size);
      BitZero(layer);
      LeftBase(base, layer);
      if !Bit(c.rightSlots, size) {
        AllocateThenFree(c.right, layer - 1, base, size);
      }
    }
  }
}
