/** The operand sizes of `src/data_types.h`, and the bit positions that go with them. */
module DataTypes {

  datatype OpSize = DW | W | B | UNKNOWN

  /** In bytes. */
  function Width(size: OpSize): nat {
    match size
    case DW => 4
    case W => 2
    case B => 1
    case UNKNOWN => 0
  }

  /** `get_last_bit_pos`, for a type of `w` bits. */
  function LastBitPos(w: nat, size: OpSize): (r: nat)
    requires 0 < w
    ensures size == DW ==> r == 31
    ensures size == W ==> r == 15
    ensures size == B ==> r == 7
    ensures size == UNKNOWN ==> r + 1 == w
  {
    if size == UNKNOWN then w - 1 else 8 * Width(size) - 1
  }

  /** `get_half_bit_pos` */
  function HalfBitPos(w: nat, size: OpSize): (r: nat)
    requires 1 < w
    ensures size == DW ==> r == 15
    ensures size == W ==> r == 7
    ensures size == B ==> r == 3
    ensures size == UNKNOWN ==> r + 1 == w / 2
  {
    if size == UNKNOWN then w / 2 - 1 else 4 * Width(size) - 1
  }
}
