/** `get_cell_allocated_size` against the sizes of the live blocks. */
module BuddyCount {
  import opened Bits
  import opened BuddyTree

  /** The traversal, which stops at masks of all ones and all zeros. */
  function AllocatedSize(c: Cell, layer: nat, cellSize: nat): nat
    requires Shape(c, layer)
  {
    match c
    case Leaf(slots, _) =>
      if slots == 3 then cellSize else if slots == 0 then 0 else cellSize / 2
    case Node(slots, _, _, right, left) =>
      if slots == Mask(layer) then cellSize else if slots == 0 then 0
      else AllocatedSize(right, layer - 1, cellSize / 2) + AllocatedSize(left, layer - 1, cellSize / 2)
  }

  /** The bytes of a set of blocks, with `unit` bytes in a granule. */
  ghost function Total(s: set<Block>, unit: nat): nat {
    if s == {} then 0 else
      var b :| b in s;
      Shl(unit, b.layer) + Total(s - {b}, unit)
  }

  lemma {:induction false} TotalOfMember(s: set<Block>, unit: nat, b: Block)
    requires b in s
    ensures Total(s, unit) == Shl(unit, b.layer) + Total(s - {b}, unit)
  {
    var x :| x in s && Total(s, unit) == Shl(unit, x.layer) + Total(s - {x}, unit);
    if x != b {
      TotalOfMember(s - {x}, unit, b);
      TotalOfMember(s - {b}, unit, x);
      assert s - {x} - {b} == s - {b} - {x};
    }
  }

  lemma {:induction false} TotalOfUnion(s: set<Block>, t: set<Block>, unit: nat)
    requires s !! t
    ensures Total(s + t, unit) == Total(s, unit) + Total(t, unit)
  {
    if s == {} {
      assert s + t == t;
    } else {
      var b :| b in s;
      TotalOfMember(s, unit, b);
      TotalOfMember(s + t, unit, b);
      assert s + t - {b} == (s - {b}) + t;
      TotalOfUnion(s - {b}, t, unit);
    }
  }

  /** Two children that are both full make a cell whose summary is all ones, and no others do. */
  lemma FullFromChildren(c: Cell, layer: nat)
    requires c.Node? && Shape(c, layer) && Good(c, layer) && !Whole(c, layer)
    ensures c.slots == Mask(layer) <==> c.rightSlots == Mask(layer - 1) && c.leftSlots == Mask(layer - 1)
  {
    SlotsBound(c.right, layer - 1);
    SlotsBound(c.left, layer - 1);
    WholeIsNotCombined(c, layer);
    var r, l, m := c.rightSlots, c.leftSlots, Mask(layer - 1);
    forall i: nat
      ensures Bit(c.slots, i) ==
        if i < layer then Bit(r, i) && Bit(l, i) else i == layer && (Bit(r, layer - 1) || Bit(l, layer - 1))
      ensures Bit(m, i) <==> i < layer
      ensures Bit(Mask(layer), i) <==> i <= layer
      ensures i >= layer ==> !Bit(r, i) && !Bit(l, i)
    {
      CombineBit(r, l, layer, i);
      MaskBit(layer, i);
      MaskBit(layer - 1, i);
      HighBitsClear(r, layer);
      HighBitsClear(l, layer);
    }
    if c.slots == Mask(layer) {
      Extensional(r, m);
      Extensional(l, m);
    } else if r == m && l == m {
      Extensional(c.slots, Mask(layer));
    }
  }

  lemma LiveHalvesApart(c: Cell, layer: nat, base: nat)
    requires c.Node? && Shape(c, layer) && Good(c, layer) && base % Pow2(layer) == 0
    ensures Live(c.right, layer - 1, base) !! Live(c.left, layer - 1, base + Pow2(layer - 1))
  {
    hide Live;
    var mid := base + Pow2(layer - 1);
    var lower, upper := Live(c.right, layer - 1, base), Live(c.left, layer - 1, mid);
    LeftBase(base, layer);
    forall x | x in lower
      ensures x.offset < mid
    {
      LiveInside(c.right, layer - 1, base, x);
    }
    forall x | x in upper
      ensures x.offset >= mid
    {
      LiveInside(c.left, layer - 1, mid, x);
    }
  }

  /** Conservation: the early stops do not change the sum. */
  lemma {:induction false} AllocatedSizeIsTotal(c: Cell, layer: nat, base: nat, unit: nat)
    requires Shape(c, layer) && Good(c, layer) && base % Pow2(layer) == 0
    ensures AllocatedSize(c, layer, Shl(unit, layer)) == Total(Live(c, layer, base), unit)
    ensures c.slots == Mask(layer) ==> Total(Live(c, layer, base), unit) == Shl(unit, layer)
  {
    var self := Block(layer, base);
    if Whole(c, layer) {
      TotalOfMember({self}, unit, self);
      assert {self} - {self} == {};
      MaskBit(layer, 0);
      assert Pow2(2) == 4;
    } else if c.Leaf? {
      LeafSize(c, base, unit);
    } else {
      NodeSize(c, layer, base, unit);
    }
  }

  lemma {:induction false} NodeSize(c: Cell, layer: nat, base: nat, unit: nat)
    requires c.Node? && Shape(c, layer) && Good(c, layer) && base % Pow2(layer) == 0 && !Whole(c, layer)
    ensures AllocatedSize(c, layer, Shl(unit, layer)) == Total(Live(c, layer, base), unit)
    ensures c.slots == Mask(layer) ==> Total(Live(c, layer, base), unit) == Shl(unit, layer)
    decreases c, 0
  {
    hide Live, Total, Mask, Pow2, Combine;
    var mid := base + Pow2(layer - 1);
    LeftBase(base, layer);
    LiveOfNode(c, layer, base);
    LiveHalvesApart(c, layer, base);
    AllocatedSizeIsTotal(c.right, layer - 1, base, unit);
    AllocatedSizeIsTotal(c.left, layer - 1, mid, unit);
    TotalOfUnion(Live(c.right, layer - 1, base), Live(c.left, layer - 1, mid), unit);
    FullFromChildren(c, layer);
    TopBitMeansUsed(c, layer, base);
    NothingTotal(unit);
    MaskBit(layer, 0);
  }

  lemma NothingTotal(unit: nat)
    ensures Total({}, unit) == 0
  {
  }

  lemma LeafSize(c: Cell, base: nat, unit: nat)
    requires c.Leaf? && Good(c, 1) && !Whole(c, 1)
    ensures AllocatedSize(c, 1, Shl(unit, 1)) == Total(Live(c, 1, base), unit)
    ensures c.slots == Mask(1) ==> Total(Live(c, 1, base), unit) == Shl(unit, 1)
  {
    var lower, upper := Block(0, base), Block(0, base + 1);
    assert Pow2(2) == 4;
    TotalOfMember({lower}, unit, lower);
    TotalOfMember({upper}, unit, upper);
    assert {lower} - {lower} == {} && {upper} - {upper} == {};
    TotalOfUnion({lower}, {upper}, unit);
  }
}
