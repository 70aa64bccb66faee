/** The placement of the cells in one byte array, as the constructor of `TreeCell` computes
    it: each cell hands out an address for its right child, one half further on an
    address for its left child, and the bytes after each for what is below. */
module BuddyArena {
  import opened Arithmetic
  import opened Bits

  /** Sizes in bytes of a `TreeCell<1>` and of all other cells. */
  datatype Sizes = Sizes(leaf: nat, inner: nat)

  datatype Slot = Slot(layer: nat, address: nat)

  function SizeOf(s: Sizes, layer: nat): nat {
    if layer == 1 then s.leaf else s.inner
  }

  /** `tree_cells_below_size` */
  function CellsBelowSize(s: Sizes, layer: nat): nat
    requires layer > 1
  {
    var p := Pow2(layer - 1);
    assert p >= 2;
    s.inner * (p - 2) + s.leaf * p
  }

  /** `get_tree_cells_size` */
  function TreeCellsSize(s: Sizes, cellsCount: nat): nat
    requires cellsCount > 0
  {
    var derived: nat := 2 * cellsCount - 1 - cellsCount;
    s.leaf * cellsCount + derived * s.inner
  }

  /** The cells below a cell of the layer whose own bytes for children start at `t`, in the
      order in which they are constructed. */
  function Layout(s: Sizes, layer: nat, t: nat): seq<Slot>
    requires layer > 0
  {
    if layer == 1 then [] else
    var half := CellsBelowSize(s, layer) / 2;
    [Slot(layer - 1, t)] + Layout(s, layer - 1, t + s.inner)
    + [Slot(layer - 1, t + half)] + Layout(s, layer - 1, t + s.inner + half)
  }

  /** The slots follow each other without gap or overlap from `from` to `to`. */
  predicate Tiles(s: Sizes, slots: seq<Slot>, from: nat, to: nat) {
    if slots == [] then from == to
    else slots[0].address == from && Tiles(s, slots[1..], from + SizeOf(s, slots[0].layer), to)
  }

  lemma {:induction false} TilesAppend(s: Sizes, a: seq<Slot>, b: seq<Slot>, from: nat, mid: nat, to: nat)
    requires Tiles(s, a, from, mid) && Tiles(s, b, mid, to)
    ensures Tiles(s, a + b, from, to)
  {
    if a == [] {
      assert a + b == b;
    } else {
      TilesAppend(s, a[1..], b, from + SizeOf(s, a[0].layer), mid, to);
      assert (a + b)[1..] == a[1..] + b;
    }
  }

  /** A child and everything below it take exactly half of what is below the parent. */
  lemma HalfForEachChild(s: Sizes, layer: nat)
    requires layer > 1
    ensures CellsBelowSize(s, layer) % 2 == 0
    ensures layer > 2 ==> s.inner + CellsBelowSize(s, layer - 1) == CellsBelowSize(s, layer) / 2
    ensures layer == 2 ==> s.leaf == CellsBelowSize(s, layer) / 2
  {
    var p := Pow2(layer - 2);
    Halved(s.inner, s.leaf, p);
    if layer > 2 {
      Factor(s.inner, p - 2, 1);
    }
  }

  lemma Halved(i: nat, l: nat, p: nat)
    requires p > 0
    ensures i * (2 * p - 2) + l * (2 * p) == 2 * (i * (p - 1) + l * p)
  {
  }

  lemma LayoutInHalves(s: Sizes, layer: nat, t: nat)
    requires layer > 1
    ensures var half := CellsBelowSize(s, layer) / 2;
            Layout(s, layer, t) ==
              ([Slot(layer - 1, t)] + Layout(s, layer - 1, t + s.inner))
              + ([Slot(layer - 1, t + half)] + Layout(s, layer - 1, t + half + s.inner))
  {
    hide CellsBelowSize;
    var half := CellsBelowSize(s, layer) / 2;
    assert t + half + s.inner == t + s.inner + half;
  }

  lemma {:induction false} LayoutTiles(s: Sizes, layer: nat, t: nat)
    requires layer > 0
    ensures layer > 1 ==> Tiles(s, Layout(s, layer, t), t, t + CellsBelowSize(s, layer))
    decreases layer
  {
    if layer > 1 {
      hide CellsBelowSize, Pow2, Tiles, Layout;
      HalfForEachChild(s, layer);
      var half := CellsBelowSize(s, layer) / 2;
      ChildTiles(s, layer, t);
      ChildTiles(s, layer, t + half);
      var a := [Slot(layer - 1, t)] + Layout(s, layer - 1, t + s.inner);
      var b := [Slot(layer - 1, t + half)] + Layout(s, layer - 1, t + half + s.inner);
      TilesAppend(s, a, b, t, t + half, t + 2 * half);
      LayoutInHalves(s, layer, t);
    }
  }

  /** One child with what is below it. */
  lemma {:induction false} ChildTiles(s: Sizes, layer: nat, t: nat)
    requires layer > 1
    ensures Tiles(s, [Slot(layer - 1, t)] + Layout(s, layer - 1, t + s.inner), t, t + CellsBelowSize(s, layer) / 2)
    decreases layer, 0
  {
    HalfForEachChild(s, layer);
    hide CellsBelowSize;
    var head, below := [Slot(layer - 1, t)], Layout(s, layer - 1, t + s.inner);
    var mid := t + SizeOf(s, layer - 1);
    assert head[1..] == [];
    assert Tiles(s, head[1..], mid, mid);
    assert Tiles(s, head, t, mid);
    if layer > 2 {
      LayoutTiles(s, layer - 1, t + s.inner);
      TilesAppend(s, head, below, t, mid, t + CellsBelowSize(s, layer) / 2);
    } else {
      assert head + below == head;
    }
  }

  lemma {:induction false} TilesInside(s: Sizes, slots: seq<Slot>, from: nat, to: nat, i: nat)
    requires Tiles(s, slots, from, to) && i < |slots|
    ensures from <= slots[i].address && slots[i].address + SizeOf(s, slots[i].layer) <= to
  {
    var next := from + SizeOf(s, slots[0].layer);
    TilesOrdered(s, slots[1..], next, to);
    if i > 0 {
      TilesInside(s, slots[1..], next, to, i - 1);
    }
  }

  lemma {:induction false} TilesOrdered(s: Sizes, slots: seq<Slot>, from: nat, to: nat)
    requires Tiles(s, slots, from, to)
    ensures from <= to
  {
    if slots != [] {
      TilesOrdered(s, slots[1..], from + SizeOf(s, slots[0].layer), to);
    }
  }

  lemma {:induction false} TilesApart(s: Sizes, slots: seq<Slot>, from: nat, to: nat, i: nat, j: nat)
    requires Tiles(s, slots, from, to) && i < j < |slots|
    ensures slots[i].address + SizeOf(s, slots[i].layer) <= slots[j].address
  {
    var next := from + SizeOf(s, slots[0].layer);
    if i > 0 {
      TilesApart(s, slots[1..], next, to, i - 1, j - 1);
    } else {
      TilesInside(s, slots[1..], next, to, j - 1);
    }
  }

  /** The layers of a tree, root first, then the right subtree, then the left one. */
  function Preorder(layer: nat): seq<nat>
    requires layer > 0
  {
    if layer == 1 then [1] else [layer] + Preorder(layer - 1) + Preorder(layer - 1)
  }

  function Layers(slots: seq<Slot>): (r: seq<nat>)
    ensures |r| == |slots|
  {
    if slots == [] then [] else [slots[0].layer] + Layers(slots[1..])
  }

  lemma {:induction false} LayersAppend(a: seq<Slot>, b: seq<Slot>)
    ensures Layers(a + b) == Layers(a) + Layers(b)
  {
    if a == [] {
      assert a + b == b;
    } else {
      LayersAppend(a[1..], b);
      assert (a + b)[0] == a[0] && (a + b)[1..] == a[1..] + b;
      assert [a[0].layer] + (Layers(a[1..]) + Layers(b)) == [a[0].layer] + Layers(a[1..]) + Layers(b);
    }
  }

  lemma OneLayer(x: Slot)
    ensures Layers([x]) == [x.layer]
  {
    assert Layers([x][1..]) == [];
  }

  lemma Regroup(a: seq<nat>, b: seq<nat>, c: seq<nat>, d: seq<nat>, e: seq<nat>)
    ensures a + (b + c + d + e) == a + (b + c) + (d + e)
  {
  }

  lemma {:induction false} LayoutIsPreorder(s: Sizes, layer: nat, t: nat)
    requires layer > 0
    ensures [layer] + Layers(Layout(s, layer, t)) == Preorder(layer)
  {
    if layer > 1 {
      hide CellsBelowSize, Layers;
      var half := CellsBelowSize(s, layer) / 2;
      var r, l := [Slot(layer - 1, t)], [Slot(layer - 1, t + half)];
      var rs, ls := Layout(s, layer - 1, t + s.inner), Layout(s, layer - 1, t + s.inner + half);
      LayoutIsPreorder(s, layer - 1, t + s.inner);
      LayoutIsPreorder(s, layer - 1, t + s.inner + half);
      LayersAppend(r + rs + l, ls);
      LayersAppend(r + rs, l);
      LayersAppend(r, rs);
      OneLayer(r[0]);
      OneLayer(l[0]);
      Regroup([layer], [layer - 1], Layers(rs), [layer - 1], Layers(ls));
    }
  }

  /** For every number of layers: the cells below the root are constructed in preorder, lie
      at pairwise disjoint places inside the bytes set aside for them, and those bytes are
      within the array that is allocated. */
  lemma ArenaIsSafe(s: Sizes, layers: nat)
    requires layers > 1
    ensures var slots := Layout(s, layers, 0);
            && [layers] + Layers(slots) == Preorder(layers)
            && (forall i, j :: 0 <= i < j < |slots| ==>
                  slots[i].address + SizeOf(s, slots[i].layer) <= slots[j].address)
            && (forall i :: 0 <= i < |slots| ==>
                  slots[i].address + SizeOf(s, slots[i].layer) <= CellsBelowSize(s, layers))
            && CellsBelowSize(s, layers) <= TreeCellsSize(s, Pow2(layers))
  {
    ArenaFits(s, layers);
    hide CellsBelowSize, TreeCellsSize, Tiles, Layout, Layers, Preorder, Pow2;
    LayoutIsPreorder(s, layers, 0);
    LayoutTiles(s, layers, 0);
    var slots, size := Layout(s, layers, 0), CellsBelowSize(s, layers);
    forall i, j | 0 <= i < j < |slots|
      ensures slots[i].address + SizeOf(s, slots[i].layer) <= slots[j].address
    {
      TilesApart(s, slots, 0, size, i, j);
    }
    forall i | 0 <= i < |slots|
      ensures slots[i].address + SizeOf(s, slots[i].layer) <= size
    {
      TilesInside(s, slots, 0, size, i);
    }
  }

  lemma ArenaFits(s: Sizes, layers: nat)
    requires layers > 1
    ensures CellsBelowSize(s, layers) <= TreeCellsSize(s, Pow2(layers))
  {
    var p := Pow2(layers - 1);
    ArrayIsLargeEnough(s, p);
    MulMono(p + 1, 0, s.inner);
    MulMono(p, 0, s.leaf);
    hide TreeCellsSize;
    assert CellsBelowSize(s, layers) == s.inner * (p - 2) + s.leaf * p;
  }

  lemma ArrayIsLargeEnough(s: Sizes, p: nat)
    requires p >= 2
    ensures TreeCellsSize(s, 2 * p) == (s.inner * (p - 2) + s.leaf * p) + (s.inner * (p + 1) + s.leaf * p)
  {
    Factor(s.inner, p - 2, p + 1);
    Factor(s.leaf, p, p);
  }
}
