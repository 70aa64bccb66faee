/** The cells of the buddy allocator as objects that update their masks in place. */
module BuddyCell {
  import opened Arithmetic
  import opened Bits
  import T = BuddyTree
  import C = BuddyCount

  /** `TreeCell<layer>`; for layer 1 the children are absent and `rightSlot` is used. */
  class TreeCell {
    const layer: nat
    const cellSize: nat
    const memoryPosition: nat
    const mask: nat
    const right: TreeCell?
    const left: TreeCell?
    var allocSlots: nat
    var rightSlots: nat
    var leftSlots: nat
    var rightSlot: bool
    /** The bytes in a granule, as the cell sizes have it. */
    ghost const unit: nat
    ghost const Repr: set<object>

    /** `cell_size` is a 16-bit parameter above layer 1. */
    constructor (layer: nat, cellSize: nat, memoryPosition: nat, ghost unit: nat)
      requires 0 < layer < 16
      requires (if layer > 1 then Trunc(16, cellSize) else cellSize) == Shl(unit, layer)
      ensures WellFormed() && fresh(Repr)
      ensures this.layer == layer && this.memoryPosition == memoryPosition && this.unit == unit
      ensures View() == T.Fresh(layer)
      decreases layer
    {
      this.layer := layer;
      this.memoryPosition := memoryPosition;
      this.unit := unit;
      allocSlots, rightSlots, leftSlots, rightSlot := 0, 0, 0, false;
      if layer == 1 {
        this.cellSize := cellSize;
        mask := 3;
        right, left, Repr := null, null, {this};
      } else {
        var size := Trunc(16, cellSize);
        TruncAtMost(16, size / 2);
        var r := new TreeCell(layer - 1, size / 2, memoryPosition, unit);
        var l := new TreeCell(layer - 1, size / 2, memoryPosition + size / 2, unit);
        this.cellSize := size;
        mask := Pow2(layer + 1) - 1;
        right, left, Repr := r, l, {this} + r.Repr + l.Repr;
      }
      new;
    }

    /** The fixed structure below this cell. */
    ghost predicate WellFormed()
      decreases layer
    {
      && layer > 0
      && mask == T.Mask(layer)
      && cellSize == Shl(unit, layer)
      && (layer == 1 ==> right == null && left == null && Repr == {this})
      && (layer > 1 ==>
            && right != null && left != null
            && right.layer == layer - 1 && left.layer == layer - 1
            && right.unit == unit && left.unit == unit
            && right.memoryPosition == memoryPosition
            && left.memoryPosition == memoryPosition + cellSize / 2
            && Repr == {this} + right.Repr + left.Repr
            && this !in right.Repr && this !in left.Repr && right.Repr !! left.Repr
            && right.WellFormed() && left.WellFormed())
    }

    /** The cell as a value. */
    ghost function View(): (c: T.Cell)
      requires WellFormed()
      reads this, Repr
      ensures T.Shape(c, layer) && c.slots == allocSlots
      decreases layer
    {
      if layer == 1 then T.Leaf(allocSlots, rightSlot)
      else T.Node(allocSlots, rightSlots, leftSlots, right.View(), left.View())
    }

    method UpdateAllocSlots()
      requires WellFormed() && layer > 1
      modifies this
      ensures View() == T.Updated(old(right.View()), old(left.View()), layer)
    {
      rightSlots := right.allocSlots;
      leftSlots := left.allocSlots;
      allocSlots := And(rightSlots, leftSlots);
      var top := Shl(1, layer - 1);
      ShlIsProduct(1, layer - 1);
      allocSlots := Or(allocSlots, Shl(Or(And(rightSlots, top), And(leftSlots, top)), 1));
    }

    /** `(slots >> i) & 1` */
    lemma ShiftedBit(slots: nat, i: nat)
      ensures And(Shr(slots, i), 1) == Num(Bit(slots, i))
    {
      ShrIsQuotient(slots, i);
      BitIsShiftParity(slots, i);
      AndMask(Shr(slots, i), 0);
    }

    method AllocateFor(allocSize: nat) returns (pos: nat)
      requires WellFormed()
      modifies Repr
      ensures View() == T.AllocateFor(old(View()), layer, allocSize).0
      ensures pos == memoryPosition + unit * T.AllocateFor(old(View()), layer, allocSize).1
      decreases layer
    {
      if layer == 1 {
        pos := AllocateInLeaf(allocSize);
      } else if allocSize == layer {
        allocSlots := mask;
        pos := memoryPosition;
      } else {
        ShiftedBit(rightSlots, allocSize);
        ghost var before := View();
        if And(Shr(rightSlots, allocSize), 1) == 0 {
          pos := right.AllocateFor(allocSize);
          assert left.View() == before.left;
        } else {
          pos := left.AllocateFor(allocSize);
          assert right.View() == before.right;
          ghost var off := T.AllocateFor(before.left, layer - 1, allocSize).1;
          ShlIsProduct(unit, layer - 1);
          Factor(unit, Pow2(layer - 1), off);
        }
        UpdateAllocSlots();
      }
    }

    method AllocateInLeaf(allocSize: nat) returns (pos: nat)
      requires WellFormed() && layer == 1
      modifies this
      ensures View() == T.AllocateFor(old(View()), 1, allocSize).0
      ensures pos == memoryPosition + unit * T.AllocateFor(old(View()), 1, allocSize).1
    {
      assert Pow2(2) == 4;
      assert Shl(unit, 1) == 2 * Shl(unit, 0);
      if allocSize == 1 {
        allocSlots := mask;
        pos := memoryPosition;
      } else if !rightSlot {
        rightSlot := true;
        if allocSlots == 2 {
          allocSlots := mask;
        } else {
          allocSlots := 2;
        }
        pos := memoryPosition;
      } else {
        allocSlots := mask;
        pos := memoryPosition + cellSize / 2;
      }
    }

    method Deallocate(cellIndex: nat, targetLayer: nat)
      requires WellFormed()
      modifies Repr
      ensures View() == T.Deallocate(old(View()), layer, cellIndex, targetLayer)
      decreases layer
    {
      if layer == 1 {
        AndMask(targetLayer, 0);
        AndMask(cellIndex, 0);
        if And(targetLayer, 1) == 1 {
          allocSlots := 0;
        } else {
          if And(cellIndex, 1) == 0 {
            rightSlot := false;
          }
          allocSlots := Shl(Num(rightSlot), 1);
        }
      } else if layer == targetLayer {
        allocSlots := 0;
      } else {
        ShiftedBit(cellIndex, layer);
        ghost var before := View();
        if And(Shr(cellIndex, layer), 1) == 1 {
          left.Deallocate(cellIndex, targetLayer);
          assert right.View() == before.right;
        } else {
          right.Deallocate(cellIndex, targetLayer);
          assert left.View() == before.left;
        }
        UpdateAllocSlots();
      }
    }

    /** `get_cell_allocated_size` */
    method GetAllocatedSize() returns (size: nat)
      requires WellFormed()
      ensures size == C.AllocatedSize(View(), layer, Shl(unit, layer))
      decreases layer
    {
      assert Pow2(2) == 4;
      if allocSlots == mask {
        size := cellSize;
      } else if allocSlots == 0 {
        size := 0;
      } else if layer == 1 {
        size := cellSize / 2;
      } else {
        var r := right.GetAllocatedSize();
        var l := left.GetAllocatedSize();
        size := r + l;
      }
    }
  }
}
