/** The cells of the buddy allocator as values: `TreeCell<1>` is a `Leaf`, `TreeCell<layer>`
    a `Node`.  The lower half of a cell's range belongs to its `right` child.  Offsets and
    sizes count granules; a cell at layer L covers 2^L of them. */
module BuddyTree {
  import opened Arithmetic
  import opened Bits

  datatype Cell =
    | Leaf(slots: nat, rightSlot: bool)
    | Node(slots: nat, rightSlots: nat, leftSlots: nat, right: Cell, left: Cell)

  predicate Shape(c: Cell, layer: nat) {
    match c
    case Leaf(_, _) => layer == 1
    case Node(_, _, _, right, left) => layer > 1 && Shape(right, layer - 1) && Shape(left, layer - 1)
  }

  /** The tree that the constructor builds. */
  function Fresh(layer: nat): (c: Cell)
    requires layer > 0
    ensures Shape(c, layer)
  {
    if layer == 1 then Leaf(0, false)
    else Node(0, 0, 0, Fresh(layer - 1), Fresh(layer - 1))
  }

  function Mask(layer: nat): nat {
    Pow2(layer + 1) - 1
  }

  /** The summary of a cell from those of its children: an AND of all bits, and above
      them an OR of the two top bits. */
  function Combine(rightSlots: nat, leftSlots: nat, layer: nat): nat
    requires layer > 1
  {
    Or(And(rightSlots, leftSlots),
       Shl(Or(And(rightSlots, Pow2(layer - 1)), And(leftSlots, Pow2(layer - 1))), 1))
  }

  /** `update_alloc_slots` */
  function Updated(right: Cell, left: Cell, layer: nat): Cell
    requires layer > 1
  {
    Node(Combine(right.slots, left.slots, layer), right.slots, left.slots, right, left)
  }

  /** `allocate_for`: the cell afterwards, and the offset of the block inside the cell. */
  function AllocateFor(c: Cell, layer: nat, size: nat): (r: (Cell, nat))
    requires Shape(c, layer)
    ensures Shape(r.0, layer)
  {
    match c
    case Leaf(slots, rightSlot) =>
      if size == 1 then (Leaf(3, rightSlot), 0)
      else if !rightSlot then (Leaf(if slots == 2 then 3 else 2, true), 0)
      else (Leaf(3, rightSlot), 1)
    case Node(_, rightSlots, leftSlots, right, left) =>
      if size == layer then (Node(Mask(layer), rightSlots, leftSlots, right, left), 0)
      else if !Bit(rightSlots, size) then
        var (right', off) := AllocateFor(right, layer - 1, size);
        (Updated(right', left, layer), off)
      else
        var (left', off) := AllocateFor(left, layer - 1, size);
        (Updated(right, left', layer), Pow2(layer - 1) + off)
  }

  /** `deallocate`: the descent reads bit `layer` of the index at each layer. */
  function Deallocate(c: Cell, layer: nat, index: nat, target: nat): (c': Cell)
    requires Shape(c, layer)
    ensures Shape(c', layer)
  {
    match c
    case Leaf(slots, rightSlot) =>
      if target % 2 == 1 then Leaf(0, rightSlot)
      else
        var rightSlot' := rightSlot && index % 2 != 0;
        Leaf(if rightSlot' then 2 else 0, rightSlot')
    case Node(_, rightSlots, leftSlots, right, left) =>
      if layer == target then Node(0, rightSlots, leftSlots, right, left)
      else if Bit(index, layer) then Updated(right, Deallocate(left, layer - 1, index, target), layer)
      else Updated(Deallocate(right, layer - 1, index, target), left, layer)
  }

  // ---------------------------------------------------------------- live blocks

  /** 2^layer granules starting at granule `offset`. */
  datatype Block = Block(layer: nat, offset: nat)

  predicate Disjoint(a: Block, b: Block) {
    a.offset + Pow2(a.layer) <= b.offset || b.offset + Pow2(b.layer) <= a.offset
  }

  predicate Free(live: set<Block>, b: Block) {
    forall x :: x in live ==> Disjoint(x, b)
  }

  /** `b` is aligned to its size and lies in the 2^layer granules from `base` on. */
  predicate Candidate(b: Block, layer: nat, base: nat) {
    b.offset % Pow2(b.layer) == 0 && base <= b.offset && b.offset + Pow2(b.layer) <= base + Pow2(layer)
  }

  ghost predicate HasRoom(live: set<Block>, size: nat, layer: nat, base: nat) {
    exists off: nat :: Candidate(Block(size, off), layer, base) && Free(live, Block(size, off))
  }

  /** Allocated in one piece, as opposed to filled by its children. */
  predicate Whole(c: Cell, layer: nat) {
    match c
    case Leaf(slots, rightSlot) => slots == 3 && !rightSlot
    case Node(slots, rightSlots, _, _, _) => slots == Mask(layer) && rightSlots == 0
  }

  /** The blocks a cell at `base` accounts for. */
  function Live(c: Cell, layer: nat, base: nat): set<Block>
    requires Shape(c, layer)
  {
    if Whole(c, layer) then {Block(layer, base)} else
    match c
    case Leaf(slots, rightSlot) =>
      (if rightSlot then {Block(0, base)} else {}) +
      (if slots == 3 || (slots == 2 && !rightSlot) then {Block(0, base + 1)} else {})
    case Node(_, _, _, right, left) =>
      Live(right, layer - 1, base) + Live(left, layer - 1, base + Pow2(layer - 1))
  }

  /** The invariant of the tree: the caches are the children's summaries, and a summary is
      the combination of them unless the cell is allocated in one piece, in which case
      both children are empty. */
  predicate Good(c: Cell, layer: nat)
    requires Shape(c, layer)
  {
    match c
    case Leaf(slots, rightSlot) => slots == 2 || slots == 3 || (slots == 0 && !rightSlot)
    case Node(slots, rightSlots, leftSlots, right, left) =>
      && Good(right, layer - 1) && Good(left, layer - 1)
      && rightSlots == right.slots && leftSlots == left.slots
      && (slots == Combine(rightSlots, leftSlots, layer)
          || (slots == Mask(layer) && rightSlots == 0 && leftSlots == 0))
  }

  // ---------------------------------------------------------------- summaries

  lemma CombineBit(r: nat, l: nat, layer: nat, i: nat)
    requires layer > 1 && r < Pow2(layer) && l < Pow2(layer)
    ensures i < layer ==> Bit(Combine(r, l, layer), i) == (Bit(r, i) && Bit(l, i))
    ensures i == layer ==> Bit(Combine(r, l, layer), i) == (Bit(r, layer - 1) || Bit(l, layer - 1))
    ensures i > layer ==> !Bit(Combine(r, l, layer), i)
  {
    hide And, Or, Shl, Bit, Pow2;
    var p := Pow2(layer - 1);
    var tops := Or(And(r, p), And(l, p));
    BitOr(And(r, l), Shl(tops, 1), i);
    BitAnd(r, l, i);
    BitShiftLeft(tops, 1, i);
    if i > 0 {
      BitOr(And(r, p), And(l, p), i - 1);
      BitAnd(r, p, i - 1);
      BitAnd(l, p, i - 1);
      BitPow2(layer - 1, i - 1);
    }
    HighBitsClear(r, layer);
    HighBitsClear(l, layer);
  }

  lemma CombineBound(r: nat, l: nat, layer: nat)
    requires layer > 1 && r < Pow2(layer) && l < Pow2(layer)
    ensures Combine(r, l, layer) < Pow2(layer + 1)
  {
    forall j: nat | layer + 1 <= j
      ensures !Bit(Combine(r, l, layer), j)
    {
      CombineBit(r, l, layer, j);
    }
    BitsBound(Combine(r, l, layer), layer + 1);
  }

  lemma CombineZero(layer: nat)
    requires layer > 1
    ensures Combine(0, 0, layer) == 0
  {
    AndZero(Pow2(layer - 1));
    OrZero(0);
  }

  lemma {:induction false} SlotsBound(c: Cell, layer: nat)
    requires Shape(c, layer) && Good(c, layer)
    ensures c.slots < Pow2(layer + 1)
  {
    if c.Node? {
      SlotsBound(c.right, layer - 1);
      SlotsBound(c.left, layer - 1);
      CombineBound(c.rightSlots, c.leftSlots, layer);
    } else {
      assert Pow2(2) == 4;
    }
  }

  lemma MaskBit(layer: nat, i: nat)
    ensures Bit(Mask(layer), i) <==> i <= layer
    ensures Mask(layer) != 0
  {
    BitOnes(layer + 1, i);
  }

  lemma WholeIsNotCombined(c: Cell, layer: nat)
    requires c.Node? && Shape(c, layer) && Good(c, layer)
    ensures Whole(c, layer) <==> c.slots != Combine(c.rightSlots, c.leftSlots, layer)
  {
    SlotsBound(c.right, layer - 1);
    SlotsBound(c.left, layer - 1);
    MaskBit(layer, 0);
    CombineBit(c.rightSlots, c.leftSlots, layer, 0);
    BitZero(0);
  }

  lemma LeafBits(slots: nat)
    ensures slots == 0 ==> !Bit(slots, 0) && !Bit(slots, 1)
    ensures slots == 2 ==> !Bit(slots, 0) && Bit(slots, 1)
    ensures slots == 3 ==> Bit(slots, 0) && Bit(slots, 1)
  {
  }

  /** The top bit of a summary, and the summary being zero, both tell whether anything is
      live in the cell. */
  lemma {:induction false} TopBitMeansUsed(c: Cell, layer: nat, base: nat)
    requires Shape(c, layer) && Good(c, layer)
    ensures Bit(c.slots, layer) <==> Live(c, layer, base) != {}
    ensures c.slots == 0 <==> Live(c, layer, base) == {}
  {
    if c.Leaf? {
      LeafBits(c.slots);
    } else {
      TopBitMeansUsed(c.right, layer - 1, base);
      TopBitMeansUsed(c.left, layer - 1, base + Pow2(layer - 1));
      SlotsBound(c.right, layer - 1);
      SlotsBound(c.left, layer - 1);
      WholeIsNotCombined(c, layer);
      CombineBit(c.rightSlots, c.leftSlots, layer, layer);
      MaskBit(layer, layer);
      CombineZero(layer);
      BitZero(layer);
    }
  }

  // ---------------------------------------------------------------- geometry

  lemma AlignedGap(x: nat, y: nat, p: nat)
    requires p > 0 && x % p == 0 && y % p == 0 && x < y
    ensures x + p <= y
  {
    var q, s := x / p, y / p;
    assert x == q * p && y == s * p;
    if s <= q {
      MulMono(p, s, q);
    }
    MulMono(p, q + 1, s);
    Factor(p, q, 1);
  }

  /** Multiples of a power of two are multiples of the smaller ones. */
  lemma {:induction false} AlignedDown(x: nat, layer: nat, i: nat)
    requires i <= layer && x % Pow2(layer) == 0
    ensures x % Pow2(i) == 0
    decreases layer
  {
    if i < layer {
      var p := Pow2(layer - 1);
      var q := x / (2 * p);
      assert x == q * (2 * p) + 0;
      assert q * (2 * p) == (2 * q) * p;
      DivModUnique(x, p, 2 * q, 0);
      AlignedDown(x, layer - 1, i);
    }
  }

  /** The base of the left child is aligned too. */
  lemma LeftBase(base: nat, layer: nat)
    requires layer > 0 && base % Pow2(layer) == 0
    ensures base % Pow2(layer - 1) == 0
    ensures (base + Pow2(layer - 1)) % Pow2(layer - 1) == 0
  {
    AlignedDown(base, layer, layer - 1);
    var p := Pow2(layer - 1);
    assert base + p == (base / p + 1) * p + 0;
    DivModUnique(base + p, p, base / p + 1, 0);
  }

  /** A candidate smaller than the cell lies in one of the halves. */
  lemma CandidateSplit(b: Block, layer: nat, base: nat)
    requires layer > 0 && base % Pow2(layer) == 0
    requires b.layer < layer
    ensures Candidate(b, layer, base) <==>
      Candidate(b, layer - 1, base) || Candidate(b, layer - 1, base + Pow2(layer - 1))
  {
    var mid := base + Pow2(layer - 1);
    LeftBase(base, layer);
    AlignedDown(mid, layer - 1, b.layer);
    if b.offset < mid && b.offset % Pow2(b.layer) == 0 {
      AlignedGap(b.offset, mid, Pow2(b.layer));
    }
  }

  /** A candidate as large as the cell is the cell. */
  lemma CandidateOfFullSize(b: Block, layer: nat, base: nat)
    requires base % Pow2(layer) == 0 && b.layer >= layer
    ensures Candidate(b, layer, base) <==> b == Block(layer, base)
  {
    Pow2Mono(layer, b.layer);
  }

  lemma LiveOfNode(c: Cell, layer: nat, base: nat)
    requires c.Node? && Shape(c, layer) && !Whole(c, layer)
    ensures Live(c, layer, base) == Live(c.right, layer - 1, base) + Live(c.left, layer - 1, base + Pow2(layer - 1))
  {
  }

  /** Live blocks are candidates: aligned to their size, and inside the cell. */
  lemma {:induction false} LiveInside(c: Cell, layer: nat, base: nat, b: Block)
    requires Shape(c, layer) && Good(c, layer) && base % Pow2(layer) == 0
    requires b in Live(c, layer, base)
    ensures Candidate(b, layer, base) && b.layer <= layer
    ensures b.layer == layer ==> Live(c, layer, base) == {b}
  {
    if Whole(c, layer) {
      assert b == Block(layer, base);
      CandidateOfFullSize(b, layer, base);
    } else if c.Leaf? {
      LiveInsideLeaf(c, base, b);
    } else {
      LiveInsideNode(c, layer, base, b);
    }
  }

  lemma LiveInsideLeaf(c: Cell, base: nat, b: Block)
    requires c.Leaf? && !Whole(c, 1) && b in Live(c, 1, base)
    ensures Candidate(b, 1, base) && b.layer == 0
  {
    assert Pow2(0) == 1 && Pow2(1) == 2;
  }

  lemma {:induction false} LiveInsideNode(c: Cell, layer: nat, base: nat, b: Block)
    requires c.Node? && Shape(c, layer) && Good(c, layer) && base % Pow2(layer) == 0 && !Whole(c, layer)
    requires b in Live(c, layer, base)
    ensures Candidate(b, layer, base) && b.layer < layer
    decreases c, 0
  {
    hide Live, Pow2, Candidate;
    var mid := base + Pow2(layer - 1);
    LeftBase(base, layer);
    LiveOfNode(c, layer, base);
    if b in Live(c.right, layer - 1, base) {
      LiveInside(c.right, layer - 1, base, b);
    } else {
      LiveInside(c.left, layer - 1, mid, b);
    }
    CandidateSplit(b, layer, base);
  }

  /** Live blocks do not overlap. */
  lemma {:induction false} LiveDisjoint(c: Cell, layer: nat, base: nat, a: Block, b: Block)
    requires Shape(c, layer) && Good(c, layer) && base % Pow2(layer) == 0
    requires a in Live(c, layer, base) && b in Live(c, layer, base) && a != b
    ensures Disjoint(a, b)
  {
    if c.Leaf? || Whole(c, layer) {
      assert Pow2(0) == 1;
    } else {
      LiveDisjointInNode(c, layer, base, a, b);
    }
  }

  lemma {:induction false} LiveDisjointInNode(c: Cell, layer: nat, base: nat, a: Block, b: Block)
    requires c.Node? && Shape(c, layer) && Good(c, layer) && base % Pow2(layer) == 0 && !Whole(c, layer)
    requires a in Live(c, layer, base) && b in Live(c, layer, base) && a != b
    ensures Disjoint(a, b)
    decreases c, 0
  {
    hide Live, Disjoint, Pow2;
    var mid := base + Pow2(layer - 1);
    LeftBase(base, layer);
    LiveOfNode(c, layer, base);
    var lower, upper := Live(c.right, layer - 1, base), Live(c.left, layer - 1, mid);
    if a in lower && b in lower {
      LiveDisjoint(c.right, layer - 1, base, a, b);
    } else if a in upper && b in upper {
      LiveDisjoint(c.left, layer - 1, mid, a, b);
    } else if a in lower {
      LiveInHalves(c, layer, base, a, b);
    } else {
      LiveInHalves(c, layer, base, b, a);
    }
  }

  lemma LiveInHalves(c: Cell, layer: nat, base: nat, a: Block, b: Block)
    requires c.Node? && Shape(c, layer) && Good(c, layer) && base % Pow2(layer) == 0
    requires a in Live(c.right, layer - 1, base) && b in Live(c.left, layer - 1, base + Pow2(layer - 1))
    ensures Disjoint(a, b) && Disjoint(b, a)
  {
    hide Live, Pow2;
    LeftBase(base, layer);
    LiveInside(c.right, layer - 1, base, a);
    LiveInside(c.left, layer - 1, base + Pow2(layer - 1), b);
  }

  /** What is live in one half does not touch the other half. */
  lemma FreeInHalf(c: Cell, layer: nat, base: nat, b: Block)
    requires c.Node? && Shape(c, layer) && Good(c, layer) && base % Pow2(layer) == 0 && !Whole(c, layer)
    ensures var mid := base + Pow2(layer - 1);
            && (Candidate(b, layer - 1, base) ==>
                  (Free(Live(c, layer, base), b) <==> Free(Live(c.right, layer - 1, base), b)))
            && (Candidate(b, layer - 1, mid) ==>
                  (Free(Live(c, layer, base), b) <==> Free(Live(c.left, layer - 1, mid), b)))
  {
    var mid := base + Pow2(layer - 1);
    var lower, upper := Live(c.right, layer - 1, base), Live(c.left, layer - 1, mid);
    LeftBase(base, layer);
    forall x | x in lower
      ensures Candidate(x, layer - 1, base)
    {
      LiveInside(c.right, layer - 1, base, x);
    }
    forall x | x in upper
      ensures Candidate(x, layer - 1, mid)
    {
      LiveInside(c.left, layer - 1, mid, x);
    }
  }

  /** In a cell allocated in one piece nothing is free. */
  lemma NothingFree(layer: nat, base: nat, b: Block)
    requires Candidate(b, layer, base)
    ensures !Free({Block(layer, base)}, b)
  {
    assert !Disjoint(Block(layer, base), b);
  }

  // ---------------------------------------------------------------- exactness of the summaries

  /** Bit i of a summary is clear if and only if the cell's range holds a free, aligned
      block of 2^i granules. */
  lemma {:induction false} SummaryExact(c: Cell, layer: nat, base: nat, i: nat)
    requires Shape(c, layer) && Good(c, layer) && base % Pow2(layer) == 0 && i <= layer
    ensures !Bit(c.slots, i) <==> HasRoom(Live(c, layer, base), i, layer, base)
  {
    if i == layer {
      SummaryExactAtTop(c, layer, base);
    } else if c.Leaf? {
      SummaryExactLeaf(c, base);
    } else if Whole(c, layer) {
      MaskBit(layer, i);
      forall off: nat | Candidate(Block(i, off), layer, base)
        ensures !Free(Live(c, layer, base), Block(i, off))
      {
        NothingFree(layer, base, Block(i, off));
      }
    } else {
      var mid := base + Pow2(layer - 1);
      LeftBase(base, layer);
      SummaryExact(c.right, layer - 1, base, i);
      SummaryExact(c.left, layer - 1, mid, i);
      SlotsBound(c.right, layer - 1);
      SlotsBound(c.left, layer - 1);
      WholeIsNotCombined(c, layer);
      CombineBit(c.rightSlots, c.leftSlots, layer, i);
      RoomSplits(c, layer, base, i);
    }
  }

  lemma SummaryExactAtTop(c: Cell, layer: nat, base: nat)
    requires Shape(c, layer) && Good(c, layer) && base % Pow2(layer) == 0
    ensures !Bit(c.slots, layer) <==> HasRoom(Live(c, layer, base), layer, layer, base)
  {
    var live, self := Live(c, layer, base), Block(layer, base);
    TopBitMeansUsed(c, layer, base);
    assert Candidate(self, layer, base);
    forall off: nat
      ensures Candidate(Block(layer, off), layer, base) ==> off == base
    {
      CandidateOfFullSize(Block(layer, off), layer, base);
    }
    if live == {} {
      assert Free(live, self);
    } else {
      var x :| x in live;
      LiveInside(c, layer, base, x);
      assert !Disjoint(x, self);
    }
  }

  lemma SummaryExactLeaf(c: Cell, base: nat)
    requires c.Leaf? && Good(c, 1)
    ensures !Bit(c.slots, 0) <==> HasRoom(Live(c, 1, base), 0, 1, base)
  {
    var live := Live(c, 1, base);
    LeafBits(c.slots);
    assert Pow2(0) == 1 && Pow2(1) == 2;
    if c.slots == 0 || (c.slots == 2 && !c.rightSlot) {
      assert Candidate(Block(0, base), 1, base) && Free(live, Block(0, base));
    } else if c.slots == 2 {
      assert Candidate(Block(0, base + 1), 1, base) && Free(live, Block(0, base + 1));
    } else {
      forall off: nat | Candidate(Block(0, off), 1, base)
        ensures !Free(live, Block(0, off))
      {
        assert off == base || off == base + 1;
        if Whole(c, 1) {
          NothingFree(1, base, Block(0, off));
        } else {
          assert !Disjoint(Block(0, off), Block(0, off));
        }
      }
    }
  }

  /** Room below the size of the cell is room in one of the halves. */
  lemma RoomSplits(c: Cell, layer: nat, base: nat, i: nat)
    requires c.Node? && Shape(c, layer) && Good(c, layer) && base % Pow2(layer) == 0
    requires !Whole(c, layer) && i < layer
    ensures var mid := base + Pow2(layer - 1);
            HasRoom(Live(c, layer, base), i, layer, base) <==>
              HasRoom(Live(c.right, layer - 1, base), i, layer - 1, base)
              || HasRoom(Live(c.left, layer - 1, mid), i, layer - 1, mid)
  {
    hide Live, Candidate, Free, Good, Whole, Pow2;
    var mid := base + Pow2(layer - 1);
    forall off: nat
      ensures var b := Block(i, off);
              Candidate(b, layer, base) && Free(Live(c, layer, base), b) <==>
                (Candidate(b, layer - 1, base) && Free(Live(c.right, layer - 1, base), b))
                || (Candidate(b, layer - 1, mid) && Free(Live(c.left, layer - 1, mid), b))
    {
      CandidateSplit(Block(i, off), layer, base);
      FreeInHalf(c, layer, base, Block(i, off));
    }
  }

  // ---------------------------------------------------------------- all cells of a tree

  /** Every cell that is not inside a block allocated in one piece has an exact summary, with
      respect to all live blocks of the memory, and its caches are the children's summaries. */
  ghost predicate EveryCellExact(c: Cell, layer: nat, base: nat, live: set<Block>)
    requires Shape(c, layer)
  {
    && (forall i: nat :: i <= layer ==> (!Bit(c.slots, i) <==> HasRoom(live, i, layer, base)))
    && (c.Node? ==> c.rightSlots == c.right.slots && c.leftSlots == c.left.slots)
    && (c.Node? && !Whole(c, layer) ==>
          && EveryCellExact(c.right, layer - 1, base, live)
          && EveryCellExact(c.left, layer - 1, base + Pow2(layer - 1), live))
  }

  /** Inside the cell, `live` leaves free what the cell's own blocks leave free. */
  ghost predicate Agrees(c: Cell, layer: nat, base: nat, live: set<Block>)
    requires Shape(c, layer)
  {
    forall b :: Candidate(b, layer, base) ==> (Free(live, b) <==> Free(Live(c, layer, base), b))
  }

  lemma AgreesBelow(c: Cell, layer: nat, base: nat, live: set<Block>)
    requires c.Node? && Shape(c, layer) && Good(c, layer) && base % Pow2(layer) == 0 && !Whole(c, layer)
    requires Agrees(c, layer, base, live)
    ensures Agrees(c.right, layer - 1, base, live)
    ensures Agrees(c.left, layer - 1, base + Pow2(layer - 1), live)
  {
    hide Live, Good, Free, Whole;
    var mid := base + Pow2(layer - 1);
    forall b
      ensures Candidate(b, layer - 1, base) ==> (Free(live, b) <==> Free(Live(c.right, layer - 1, base), b))
      ensures Candidate(b, layer - 1, mid) ==> (Free(live, b) <==> Free(Live(c.left, layer - 1, mid), b))
    {
      FreeInHalf(c, layer, base, b);
      assert Candidate(b, layer - 1, base) || Candidate(b, layer - 1, mid) ==> Candidate(b, layer, base);
    }
  }

  lemma {:induction false} GoodIsExact(c: Cell, layer: nat, base: nat, live: set<Block>)
    requires Shape(c, layer) && Good(c, layer) && base % Pow2(layer) == 0 && Agrees(c, layer, base, live)
    ensures EveryCellExact(c, layer, base, live)
  {
    hide Live, Free, HasRoom, Candidate, Bit, Pow2, Agrees, Whole, Combine, Mask;
    forall i: nat | i <= layer
      ensures !Bit(c.slots, i) <==> HasRoom(live, i, layer, base)
    {
      SummaryExact(c, layer, base, i);
      SameRoom(c, layer, base, live, i);
    }
    if c.Node? && !Whole(c, layer) {
      ChildrenAreExact(c, layer, base, live);
    }
  }

  lemma {:induction false} ChildrenAreExact(c: Cell, layer: nat, base: nat, live: set<Block>)
    requires c.Node? && Shape(c, layer) && Good(c, layer) && base % Pow2(layer) == 0 && !Whole(c, layer)
    requires Agrees(c, layer, base, live)
    ensures EveryCellExact(c.right, layer - 1, base, live)
    ensures EveryCellExact(c.left, layer - 1, base + Pow2(layer - 1), live)
    decreases c, 0
  {
    hide Live, Free, HasRoom, Candidate, Bit, Pow2, Agrees, Whole, EveryCellExact, Combine, Mask;
    AgreesBelow(c, layer, base, live);
    LeftBase(base, layer);
    GoodIsExact(c.right, layer - 1, base, live);
    GoodIsExact(c.left, layer - 1, base + Pow2(layer - 1), live);
  }

  lemma SameRoom(c: Cell, layer: nat, base: nat, live: set<Block>, i: nat)
    requires Shape(c, layer) && Agrees(c, layer, base, live)
    ensures HasRoom(live, i, layer, base) <==> HasRoom(Live(c, layer, base), i, layer, base)
  {
    hide Live, Free, Candidate, Pow2;
  }
}
