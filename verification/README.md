# MCx86: the buddy allocator, the bit-level ALU and the instructions on top of them

A Dafny model of three connected parts of the processor, with proofs about all their inputs
and all their runs. `dafny verify dfyconfig.toml` checks it.

**The buddy allocator.** `BuddyTree` has the cells as values, with the summary of free block
sizes that each keeps and the set of live blocks that a tree accounts for; the summaries are
proved exact. `BuddyAllocate`, `BuddyFree` and `BuddyCount` say what the operations do to the
live blocks. `BuddyRuns` compares whole runs with a reference allocator that scans a set of
blocks from the lowest offset. `BuddyCell` has the cells as objects that change in place, each
proved to change as the value does, and `BuddyMemory` the public class, whose ghost field
`live` is the history of its calls. `BuddyArena` is the placement of the cells in one array.

**The ALU.** `AluAdd` (adder, negation, subtraction, multiplication), `AluDivide`
(comparisons, division), `AluScan` (bit scans, parity, powers of two, bit select), `AluRotate`
and `AluExtend` (sign extension) keep the loops over bits, for words of any width, and prove
them against arithmetic. `AluOverflow` says what the overflow flag of the multiplication means
for signed operands. `Bits` has words as numbers, with the bitwise operators and their laws;
`DataTypes` has the operand sizes, and `Arithmetic` a few facts about products and quotients.

**The instructions.** `Flags` is the flags register and the condition codes, with the meaning of
section 3.4.3.1 of volume 1 of the Intel 64 and IA-32 Software Developer's Manual.
`Instructions` has the arithmetic instructions, those that set the status flags with operands
of all sizes, and what chains and pairs of them compute. `Memory` is little-endian memory and
its regions. `Stack` has the stack instructions as steps of a machine with bytes, proved to
implement a machine with a list, and `Cpu` the registers and the methods, proved to take these
steps one by one and in lists.

Where the code does not do what its comments say, the model follows the code, shows an input,
and says exactly when the code is right:

- Frees are exact only for a block at offset 0 that is not the lower one of two live granules
  (`BuddyRuns.FreeIsExact`, `BuddyRuns.DoubleAllocation`). The address mask shifts by the
  granularity itself instead of its logarithm.
- A free with another size than that of the block breaks the masks exactly when a live block is only
  a part of the cell that it clears (`BuddyRuns.FreeOfAnySize`, `BuddyRuns.WrongSizeBreaksMasks`).
- The 16 bits of `cell_size` are too few for the shipped RAM: its blocks all get the same address
  (`BuddyMemory.AddressesDisjointIffRootFits`, `BuddyMemory.ShippedSizeDoesNotFit`), and the free of
  one takes back another (`BuddyRuns.ShippedSizeFreesAnother`).
- A subtraction never clears the carry flag (`Flags.SubDecides`, `Flags.StaleCarry`).
- The sum of two operands of 8 or 16 bits is not cut, so the carry flag misses every carry of these
  sizes, and the zero flag every sum of 2^8 or 2^16 (`Flags.AddFlags`, `Flags.ByteCarryMissed`).
- The left rotates do not cut an operand of 8 or 16 bits either: what it has no room for stays above
  it in the result (`AluRotate.RotateLeft`, `AluRotate.RotateLeftCarry`, `AluRotate.ByteSpills`).
- The search for the lowest one starts one step too early at 32 bits and loses its mask, so it
  answers the same for every operand (`AluScan.GetFirstSetBitIndex`).
- The sign extension of an operand looks at the middle bit of its size instead of the top one
  (`AluExtend.ExtendedIsSigned`, `Instructions.SubtractsSigned`, `Instructions.SubtractsEightAsNegative`).
  Operands have different sizes where one is a segment or control register
  (src/CPU/CPU.cpp:131-205).
- A second operand narrower than the first is negated at its own width (`AluAdd.NarrowNegation`,
  `AluAdd.NarrowOneDoesNotSubtract`), as in DEC (src/CPU/CPU_arithmetic_instructions.cpp:330).
- The remainder of a signed division is corrected to `d - r` (`AluDivide.SignedDivide`,
  `AluDivide.RemainderWrongForNegativeDividend`).
- The overflow flag of a multiplication ignores bits shifted out of the operand
  (`AluAdd.OverflowExact`, `AluAdd.PowerNeverOverflows`, `AluAdd.MissedOverflow`). For signed operands
  it is also raised by products that fit (`AluOverflow.SignedOverflow`, `AluOverflow.MinusOneSquared`).
- PUSHA saves ESP in the place of EBX, so POPA cannot restore EBX (`Stack.PopaRestores`).

An honest run, in `BuddyRuns`, is one whose frees, where they pass the address checks, name the
size of the live block at offset 0, which is not the lower one of two live granules of a leaf.
All other frees may be anything, as the checks drop them: at granularities up to 8 these are the
frees at any address but 0 (`BuddyRuns.OnlyZeroPasses`).

## Model
| member | source | states |
|---|---|---|
| BuddyRuns.RunRefines | src/memory/StaticBinaryTreeManagedMemory.hpp:274-335 | Over every honest run of allocations and frees, at any granularity and on any good tree, the tree gives answer for answer what a naive first-fit scan over the set of live blocks gives, and ends accounting for exactly those blocks |
| BuddyRuns.RunIsSafe | src/memory/StaticBinaryTreeManagedMemory.hpp:34-49 | From an empty memory of any granularity, after every honest run: every bit of the summary of every cell outside wholly allocated blocks is exact, the caches are right, and live blocks are aligned, inside the memory and pairwise disjoint |
| BuddyRuns.StepRefines | src/memory/StaticBinaryTreeManagedMemory.hpp:274-335 | One operation keeps the invariant and refines the reference allocator; frees that the address checks drop change nothing |
| BuddyRuns.AllocateRefines | src/memory/StaticBinaryTreeManagedMemory.hpp:275-295 | `allocate`, for every granularity and number of bytes, answers as the first-fit scan does, with the address that the 16-bit cell sizes give, and marks that block only |
| BuddyRuns.FreeIsExact | src/memory/StaticBinaryTreeManagedMemory.hpp:299-335 | At all granularities for which the shifts are defined, freeing a live block at the address handed out for it removes it and nothing else if and only if it is at offset 0 and not the lower one of two live granules of a leaf; where the root does not fit and all addresses are 0, also if it is the upper granule of the first leaf and alone there |
| BuddyRuns.PassedFree | src/memory/StaticBinaryTreeManagedMemory.hpp:299-335 | What a free that passes the checks removes: the block at offset 0, and for a granule its upper neighbour with it |
| BuddyRuns.FreeOfAnySize | src/memory/StaticBinaryTreeManagedMemory.hpp:299-335 | A free that passes the checks, of any size, keeps all masks right if and only if no live block is only a part of the cell that it clears, and then removes the blocks that start in its range |
| BuddyRuns.WrongSizeBreaksMasks | src/memory/StaticBinaryTreeManagedMemory.hpp:299-335 | Freeing one granule with the size of four in a memory of four breaks the masks |
| BuddyRuns.FreeNotAtZero | src/memory/StaticBinaryTreeManagedMemory.hpp:301-329 | A free at another address never removes the block that is there |
| BuddyRuns.OnlyZeroPasses | src/memory/StaticBinaryTreeManagedMemory.hpp:301-332 | The two address checks pass exactly address 0 at granularities up to 8 |
| BuddyRuns.AllocateThenFreeRestores | src/memory/StaticBinaryTreeManagedMemory.hpp:274-335 | An allocation and a free at the address it returned restore every mask of the tree if and only if the block was taken at offset 0 and not beside a live granule, at every size of the memory |
| BuddyRuns.ShippedSizeFreesAnother | src/memory/memory_manager.hpp:17-20 | In the shipped memory two requests of 8 bytes are both answered with address 0, and a free of the second block takes back the first |
| BuddyRuns.DoubleAllocation | src/memory/StaticBinaryTreeManagedMemory.hpp:425-440 | A run that frees the lower of two live granules and is then given the upper one twice |
| BuddyRuns.LayerForIsLeast | src/memory/StaticBinaryTreeManagedMemory.hpp:128-133 | The layer of a request is the least k with granularity * 2^k >= bytes |
| BuddyRuns.FirstFitFinds | src/memory/StaticBinaryTreeManagedMemory.hpp:289-294 | The reference scan finds the lowest free aligned block when there is one |
| BuddyRuns.FirstFitFindsNothing | src/memory/StaticBinaryTreeManagedMemory.hpp:289-291 | The reference scan finds nothing when no aligned block of the size is free |
| BuddyTree.SummaryExact | src/memory/StaticBinaryTreeManagedMemory.hpp:34-49 | For every cell, bit i of the summary is clear if and only if the cell's range holds a free aligned block of 2^i granules |
| BuddyTree.GoodIsExact | src/memory/StaticBinaryTreeManagedMemory.hpp:34-52 | In a tree with the invariant, all cells outside wholly allocated blocks have exact summaries with respect to all live blocks, and caches equal to the children's summaries |
| BuddyTree.CombineBit | src/memory/StaticBinaryTreeManagedMemory.hpp:40-49 | The combined summary is the AND of the children below the top bit, and the OR of their top bits at it |
| BuddyTree.TopBitMeansUsed | src/memory/StaticBinaryTreeManagedMemory.hpp:443-454 | The top bit of a summary is set, and the summary is not 0, exactly when something in the cell is live |
| BuddyTree.LiveInside | src/memory/StaticBinaryTreeManagedMemory.hpp:348-403 | Live blocks are aligned to their size and lie inside their cell |
| BuddyTree.LiveDisjoint | src/memory/StaticBinaryTreeManagedMemory.hpp:348-403 | Live blocks of a cell do not overlap |
| BuddyAllocate.AllocateTakesLowest | src/memory/StaticBinaryTreeManagedMemory.hpp:348-403 | Where a summary has room, allocation takes the lowest free aligned block, adds exactly it to the live blocks and keeps all summaries and caches right |
| BuddyAllocate.UpdatedIsGood | src/memory/StaticBinaryTreeManagedMemory.hpp:443-454 | `update_alloc_slots` restores the invariant from good children, and the cell is not taken for one allocated in one piece |
| BuddyFree.FreeFirst | src/memory/StaticBinaryTreeManagedMemory.hpp:406-440 | The descent with index 0 removes the block at the base (and, for a granule, its neighbour) and keeps all summaries right |
| BuddyFree.FreeFromBase | src/memory/StaticBinaryTreeManagedMemory.hpp:406-440 | The same exact condition for the descent with index 0 in any cell, for any target layer, even beyond the root |
| BuddyFree.FreeElsewhere | src/memory/StaticBinaryTreeManagedMemory.hpp:406-440 | The descent with index 0 leaves every block behind the range that it clears live, even where it breaks the masks |
| BuddyFree.AllocateThenFree | src/memory/StaticBinaryTreeManagedMemory.hpp:348-440 | Allocating at the base of a cell and freeing gives back the same cell, mask for mask |
| BuddyCount.AllocatedSizeIsTotal | src/memory/StaticBinaryTreeManagedMemory.hpp:235-262 | The traversal with its early stops adds up to the bytes of the live blocks |
| BuddyCount.FullFromChildren | src/memory/StaticBinaryTreeManagedMemory.hpp:238-246 | A mask of all ones comes from a whole allocation or from two full children, and from nothing else |
| BuddyCell.TreeCell.constructor | src/memory/StaticBinaryTreeManagedMemory.hpp:74-83 | The constructed tree of objects is well formed, empty, and covers the right addresses |
| BuddyCell.TreeCell.UpdateAllocSlots | src/memory/StaticBinaryTreeManagedMemory.hpp:443-454 | The new masks of the cell from those of its children, nothing else changing |
| BuddyCell.TreeCell.AllocateFor | src/memory/StaticBinaryTreeManagedMemory.hpp:348-370 | The objects change as the value does, and the position returned is that of the block |
| BuddyCell.TreeCell.AllocateInLeaf | src/memory/StaticBinaryTreeManagedMemory.hpp:373-403 | The same for the hand-written bottom layer |
| BuddyCell.TreeCell.Deallocate | src/memory/StaticBinaryTreeManagedMemory.hpp:406-440 | The objects change as the value does |
| BuddyCell.TreeCell.GetAllocatedSize | src/memory/StaticBinaryTreeManagedMemory.hpp:235-262 | The recursive traversal returns the allocated size of the value |
| BuddyMemory.StaticBinaryTreeManagedMemory.constructor | src/memory/StaticBinaryTreeManagedMemory.hpp:141-146 | An empty valid memory of new objects, with the number of layers that the sizes give |
| BuddyMemory.StaticBinaryTreeManagedMemory.Allocate | src/memory/StaticBinaryTreeManagedMemory.hpp:274-295 | Null exactly for 0 bytes, too many bytes, or no free aligned block of the rounded size; otherwise the lowest free one, which becomes live with all others untouched |
| BuddyMemory.StaticBinaryTreeManagedMemory.Deallocate | src/memory/StaticBinaryTreeManagedMemory.hpp:298-335 | Null pointers change nothing; an honest free, at any granularity, leaves the memory valid with the live blocks of the reference allocator; any other free that passes the checks leaves right masks if and only if no live block is only a part of the cell that it clears, and then loses the blocks that start in its range |
| BuddyMemory.StaticBinaryTreeManagedMemory.DeallocateByChecks | src/memory/StaticBinaryTreeManagedMemory.hpp:301-334 | The masks and shifts of the address checks are the arithmetic conditions on the address; only shifts that are made have to be defined |
| BuddyMemory.StaticBinaryTreeManagedMemory.GetAllocatedMemorySize | src/memory/StaticBinaryTreeManagedMemory.hpp:265-271 | The size reported is the bytes of the live blocks |
| BuddyMemory.GetAllocationSize | src/memory/StaticBinaryTreeManagedMemory.hpp:195-217 | The logarithms of the size and the granularity give the least sufficient layer, and 0 bytes are recognised |
| BuddyMemory.RootSize | src/memory/StaticBinaryTreeManagedMemory.hpp:25-25 | What the 16 bits of `cell_size` make of the size of the root |
| BuddyMemory.AddressesDisjointIffRootFits | src/memory/StaticBinaryTreeManagedMemory.hpp:25-25 | Disjoint blocks have disjoint byte ranges if and only if the size of the root fits its 16 bits |
| BuddyMemory.ShippedSizeDoesNotFit | src/memory/memory_manager.hpp:17-20 | The shipped RAM size has a root that does not fit |
| BuddyMemory.FirstCheck | src/memory/StaticBinaryTreeManagedMemory.hpp:301-315 | The mask test is a comparison of the address with 2^granularity, for every granularity |
| BuddyMemory.SecondCheck | src/memory/StaticBinaryTreeManagedMemory.hpp:325-332 | The shift up and down keeps the low bits of the address |
| BuddyArena.ArenaIsSafe | src/memory/StaticBinaryTreeManagedMemory.hpp:54-83 | For every number of layers the cells are placed in preorder, at pairwise disjoint places inside the bytes below the root, and these fit the array allocated |
| BuddyArena.LayoutTiles | src/memory/StaticBinaryTreeManagedMemory.hpp:74-83 | The placement fills exactly `tree_cells_below_size` bytes, without a gap |
| BuddyArena.HalfForEachChild | src/memory/StaticBinaryTreeManagedMemory.hpp:338-345 | Each child with everything below it takes exactly half |
| BuddyArena.LayoutIsPreorder | src/memory/StaticBinaryTreeManagedMemory.hpp:64-73 | The order of the cells is the documented one |
| BuddyArena.ArrayIsLargeEnough | src/memory/StaticBinaryTreeManagedMemory.hpp:220-232 | `get_tree_cells_size` is `tree_cells_below_size` and the sizes of p + 1 inner cells and p leaves more, for 2p leaves counted |
| AluAdd.Add | src/ALU.hpp:612-633 | result + carry * 2^W = a + b + carry in, for every width |
| AluAdd.AddNoCarry | src/ALU.hpp:636-641 | The sum modulo 2^W |
| AluAdd.Negate | src/ALU.hpp:648-670 | Copying up to the first one and flipping the rest is negation modulo 2^W |
| AluAdd.NegateInvolution | src/ALU.hpp:644-670 | Negation is an involution, and n plus its negation is 0 |
| AluAdd.Sub | src/ALU.hpp:673-678 | The sum of the first operand and the negated second one, what the carry out says for operands of one width, and that the result is a - b + carry in modulo 2^W if and only if the widths are equal or b is 0 |
| AluAdd.NarrowNegation | src/ALU.hpp:673-678 | Adding an operand negated at its own width subtracts it if and only if that is the full width or the operand is 0 |
| AluAdd.NarrowOneDoesNotSubtract | src/ALU.hpp:673-678 | A byte of 1 is not subtracted from a word of 32 bits |
| AluAdd.SubNoCarry | src/ALU.hpp:681-687 | The same without a carry in |
| AluAdd.CheckIsNegative | src/ALU.hpp:98-108 | The bit tested is the sign of an operand of the size |
| AluAdd.Abs | src/ALU.hpp:690-704 | The magnitude of the signed reading |
| AluAdd.Multiply | src/ALU.hpp:715-738 | The product modulo 2^W; the overflow flag is raised exactly when the shifted operands, cut to W bits, add up to 2^W or more |
| AluAdd.OverflowIsReal | src/ALU.hpp:731-731 | A raised overflow flag implies a product of at least 2^W |
| AluAdd.OverflowExact | src/ALU.hpp:727-735 | If a times the highest one of b fits, the overflow flag is raised exactly when the product does not fit; otherwise the product does not fit, and the flag is right exactly when it is raised anyway |
| AluAdd.PowerNeverOverflows | src/ALU.hpp:727-735 | A multiplication by a power of two never raises the flag, whether the product fits or not |
| AluAdd.MissedOverflow | src/ALU.hpp:727-735 | Twice the top bit does not fit and raises no flag |
| AluOverflow.SignedOverflow | src/ALU.hpp:715-738 | For a signed product that fits, the overflow flag is raised if and only if both operands are negative, or one is and the other is positive and not a power of two; non-negative operands raise none below 2^W |
| AluOverflow.PartialSumSymmetric | src/ALU.hpp:715-738 | The overflow flag does not depend on the order of the operands |
| AluOverflow.MinusOneSquared | src/ALU.hpp:715-738 | -1 times -1 raises the flag |
| AluDivide.CompareGreaterOrEqualWithEq | src/ALU.hpp:179-204 | a >= b and a = b |
| AluDivide.CompareGreaterOrEqual | src/ALU.hpp:207-212 | a >= b |
| AluDivide.CompareGreater | src/ALU.hpp:215-237 | a > b |
| AluDivide.CompareEqual | src/ALU.hpp:156-173 | a = b |
| AluDivide.LeadingZeros | src/ALU.hpp:772-780 | The number of leading zeros of the divisor, and the mark for zero |
| AluDivide.TopBitPosition | src/ALU.hpp:791-798 | The position of the top bit of the dividend, or 0 |
| AluDivide.EnoughRoom | src/ALU.hpp:763-771 | Starting at the smaller of the two positions skips only zero digits of the quotient |
| AluDivide.NoBitLost | src/ALU.hpp:763-766 | The shifted divisor keeps all its bits |
| AluDivide.UnsignedDivide | src/ALU.hpp:753-843 | Quotient and remainder are exact for every dividend and non-zero divisor; a zero divisor is reported and gives 0 and 0 |
| AluDivide.SignedDivide | src/ALU.hpp:846-873 | The quotient is the truncated one modulo 2^W. The remainder: the Euclidean one for a negative dividend and a positive divisor, the magnitude of the truncated one for two negative operands, `d - r` cut to W bits for a negative divisor and a non-zero remainder, and otherwise the truncated one; and exactly when it is the truncated one |
| AluDivide.TruncatedDivision | src/ALU.hpp:846-873 | The specification of the signed division satisfies the division equation with a remainder smaller than the divisor, of the dividend's sign |
| AluDivide.RemainderWrongForNegativeDividend | src/ALU.hpp:866-872 | -7 by 2 is an input whose remainder is not the truncated one |
| AluScan.GetLastSetBitIndex | src/ALU.hpp:501-536 | The sliding-mask search returns floor(log2 n) for every width 2^k, and recognises 0 |
| AluScan.ScanStep | src/ALU.hpp:512-525 | One probe with the mask, whose lost top bits never matter, compares n with the middle of the range |
| AluScan.GetFirstSetBitIndex | src/ALU.hpp:463-499 | At 8 and 16 bits the index of the lowest one, and 0 recognised; at 32 bits always 63 and zero |
| AluScan.SearchStep | src/ALU.hpp:471-484 | One probe keeps the invariant of the search for the lowest one, for every width |
| AluScan.CheckParity | src/ALU.hpp:111-126 | Set exactly for an even number of ones |
| AluScan.OnesDiffer | src/ALU.hpp:111-126 | The count behind the parity: one more one counts one more, with AluScan.OnesOfZero as its start |
| AluScan.CheckPowerOf2 | src/ALU.hpp:129-153 | Set exactly for powers of two |
| AluScan.SelectMask | src/ALU.hpp:553-581 | The five levels of masks leave exactly 1 << (pos mod 32) |
| AluScan.GetAndSetBitAt | src/ALU.hpp:547-593 | Returns the bit at pos mod 32, sets it if asked, and changes no other bit |
| AluExtend.SignExtend | src/ALU.hpp:243-266 | The middle bit of the size, 3, 7 or 15, is copied to all higher places if it is set |
| AluExtend.ExtendedIsSigned | src/ALU.hpp:243-266 | For which operands of s bits this is the sign extension: those whose part above the middle is all ones, those with the middle bit clear that are below 2^(s-1) or have the full width; always if the bit is their sign |
| AluRotate.RotateLeftCarry | src/ALU.hpp:311-332 | The carry and the low bits of the word, for operands of all sizes, turn left by the count modulo 32, as multiplication by a power of two modulo 2^(s+1) - 1; the bits above the operand stay clear if and only if the operand has room for the count, with the exact condition for counts beyond its size |
| AluRotate.RotateRightCarry | src/ALU.hpp:335-355 | The result is an operand of the size that RCL by the same count takes to the operand |
| AluRotate.RotateLeft | src/ALU.hpp:358-378 | For operands of all sizes the low bits are multiplied by a power of two modulo 2^s - 1, and the carry afterwards; the bits above the operand stay clear if and only if it has room for the count, and beyond its size only for 0 |
| AluRotate.ByteSpills | src/ALU.hpp:357-378 | The byte 0x80 turned left by one does not stay a byte |
| AluRotate.RotateRight | src/ALU.hpp:381-400 | The result is an operand of the size that ROL by the same count takes to the operand, and the carry afterwards |
| AluRotate.RightUndoesLeft | src/ALU.hpp:311-355 | RCR by k undoes RCL by k for every count, carry and word |
| AluRotate.CountsAdd | src/ALU.hpp:311-332 | Two RCL are one by the sum of the counts while that is below 32 |
| AluRotate.RingCompose | src/ALU.hpp:311-400 | Rotations of a ring of any length compose by adding counts |
| AluRotate.RingInjective | src/ALU.hpp:311-400 | A rotation is undone by rotating on to a full number of turns |
| Flags.Eflags.SetVal | src/CPU/register_flags_interface.h:23-29 | Afterwards every flag of the mask has the value and every other bit is as before |
| Flags.Eflags.UpdateCarryFlag | src/CPU/register_flags_interface.h:88-98 | The new carry flag: set on a borrow and otherwise left for subtractions, the carry for additions |
| Flags.Eflags.UpdateOverflowFlag | src/CPU/register_flags_interface.h:100-126 | The overflow flag by the rule of signs, each sign taken at the size of its operand |
| Flags.Eflags.UpdateAdjustFlag | src/CPU/register_flags_interface.h:128-139 | The adjust flag is the carry or borrow of the low hexadecimal digits, without the carry in |
| Flags.Eflags.UpdateParityFlag | src/CPU/register_flags_interface.h:82-86 | The parity flag counts the ones of the low byte |
| Flags.Eflags.UpdateStatusFlags | src/CPU/register_flags_interface.h:141-151 | The six updates in their order, for operands of all sizes, flag by flag at their positions in the register |
| Flags.WithBit | src/CPU/register_flags_interface.h:23-29 | Setting flags changes the bits of the mask and no other |
| Flags.StatusFlagsRead | src/CPU/register_flags_interface.h:141-151 | After the six updates each status flag has its own value and every other bit is as before |
| Flags.StatusFlagsMeaning | src/CPU/register_flags_interface.h:141-151 | The same by position: bits 0, 2, 4, 6, 7 and 11 in terms of the operands and the result, and no other bit changes |
| Flags.SubDecides | src/CPU/CPU_arithmetic_instructions.cpp:709-726 | After SUB a, b with both operands of 8, 16 or 32 bits: the overflow flag is signed overflow at that size; E, NE, L, GE, LE, G decide the comparison from any flags; B, AE, BE, A do so if and only if the carry flag was clear or has to be set |
| Flags.SubCompares | src/CPU/CPU_state_machine_instructions.cpp:197-230 | From a clear carry flag, the condition read after SUB is the comparison that its code names, at each size |
| Flags.StaleCarry | src/CPU/register_flags_interface.h:90-94 | A carry flag set before makes SUB 5, 3 report 5 below 3 |
| Flags.AddFlags | src/CPU/CPU_arithmetic_instructions.cpp:88-103 | After ADD or ADC at each size: overflow is signed overflow with the carry in, and sign is the sign of the sum; carry and zero are right for 32 bits, and for 8 and 16 bits carry if and only if the sum fits, zero if and only if the sum is not 2^8 or 2^16 |
| Flags.ByteCarryMissed | src/CPU/CPU_arithmetic_instructions.cpp:96-103 | ADD of the bytes 255 and 1 leaves the carry and the zero flag clear |
| Flags.ConditionRead | src/CPU/CPU_state_machine_instructions.cpp:197-230 | Every condition, including those on two flags at once, in terms of single flags, with odd codes the negations of the even ones |
| Instructions.ExecAdd | src/CPU/CPU_arithmetic_instructions.cpp:96-103 | The sum cut to 32 bits; carry, parity, adjust, zero and sign flag of the sum, the overflow flag by the rule of signs and as signed overflow for operands of one size, and no other bit changes |
| Instructions.ExecAdc | src/CPU/CPU_arithmetic_instructions.cpp:88-95 | The same with the carry flag coming in |
| Instructions.ExecSub | src/CPU/CPU_arithmetic_instructions.cpp:709-726 | The difference, with the second operand extended when the sizes differ, and the flags, bit by bit |
| Instructions.SubtractsSigned | src/CPU/CPU_arithmetic_instructions.cpp:709-726 | SUB with operands of different sizes subtracts the second one as a signed number if and only if its upper half is all copies of the middle bit, or with that bit clear it is non-negative or has 32 bits |
| Instructions.SubtractsEightAsNegative | src/CPU/CPU_arithmetic_instructions.cpp:709-726 | The byte 8 is not subtracted as 8 |
| Instructions.ExecSetcc | src/CPU/CPU_arithmetic_instructions.cpp:627-652 | The byte is the flag, or combination of flags, of the code, negated for odd codes; a bad instruction exactly above 15 |
| Instructions.SubThenSetcc | src/CPU/CPU_arithmetic_instructions.cpp:627-652 | SUB then SETcc, on operands of 8, 16 or 32 bits and with the carry clear before, writes the comparison that the condition names |
| Instructions.AddChainAdds | src/CPU/CPU_arithmetic_instructions.cpp:88-103 | ADD then ADC on further limbs, the carry going through the flags register, add numbers of any length exactly |
| Instructions.AddNumbers | src/CPU/CPU_arithmetic_instructions.cpp:88-103 | Executing ADD and then ADC on the limbs of two numbers leaves the limbs of their sum and its carry |
| Instructions.AdcChainAdds | src/CPU/CPU_arithmetic_instructions.cpp:88-95 | The same for a chain of ADC with a carry coming in |
| Instructions.ExecMulx | src/CPU/CPU_arithmetic_instructions.cpp:462-475 | The exact 64-bit unsigned product in two halves; CF and OF are cleared and no other bit changes |
| Instructions.ExecImul | src/CPU/CPU_arithmetic_instructions.cpp:367-375 | The low half of the signed product; CF and OF are both set exactly when the partial products overflow, which for a product that fits means two negative operands, or a negative one and a positive one that is not a power of two; no other bit changes |
| Instructions.ExecImulx | src/CPU/CPU_arithmetic_instructions.cpp:376-393 | The high half of the signed product, with CF and OF set by the same condition, whether the half is needed or not |
| Instructions.SignedHalves | src/CPU/CPU_arithmetic_instructions.cpp:367-393 | The halves of IMULX and IMUL together are exactly the signed product |
| Instructions.ExecDiv | src/CPU/CPU_arithmetic_instructions.cpp:339-352 | The division equation with a remainder below the divisor; a divide error exactly for 0 |
| Instructions.ExecIdiv | src/CPU/CPU_arithmetic_instructions.cpp:353-366 | The truncated quotient cut to 32 bits; a divide error exactly for 0; the remainder for all operands, and when it is right |
| Memory.ReadWriteMemoryInterface.Read | src/memory/memory_interfaces.hpp:20-43 | The little-endian number of the size, byte by byte |
| Memory.ReadWriteMemoryInterface.Write | src/memory/memory_interfaces.hpp:57-82 | The low bytes of the value from the address on, lowest first, no other byte changing |
| Memory.LoadStore | src/memory/memory_interfaces.hpp:20-82 | Reading back what was written gives the value cut to the size |
| Memory.LoadOther | src/memory/memory_interfaces.hpp:57-82 | Writing elsewhere does not change what is read |
| Memory.MemoryMap.Read | src/memory/memory_manager.hpp:102-121 | For each region, by its bounds in the order of the tests, the number in its array, and the faults |
| Memory.MemoryMap.Write | src/memory/memory_manager.hpp:124-143 | For each region, by its bounds in the order of the tests, the array that changes, and the faults for text, ROM and outside |
| Memory.ReadBack | src/memory/memory_manager.hpp:102-143 | In every region that can be written, reading back gives the value cut to the size |
| Memory.ReadOther | src/memory/memory_manager.hpp:102-143 | A write leaves what is read at all addresses that it does not overlap, in every region |
| Memory.RegionsOfLayout | src/memory/memory_manager.hpp:49-56 | Where text, ROM, RAM and stack lie, and where the byte of an address is in its array |
| Stack.RunImplements | src/CPU/CPU.cpp:317-382 | Every run of pushes, pops, calls, returns and other instructions on a machine with a list for a stack is a run of the machine with bytes, and bytes above the start never change |
| Stack.NestedCode | src/CPU/CPU_state_machine_instructions.cpp:60-69 | Well-bracketed code with room for its depth runs without a fault, ends with ESP where it began and leaves the bytes from there on unchanged |
| Stack.BracketResult | src/CPU/CPU_state_machine_instructions.cpp:132-142 | Around any well-bracketed code, RET resumes at the EIP of its CALL plus 1 and POP yields the value of its PUSH |
| Stack.PopaRestores | src/CPU/CPU_state_machine_instructions.cpp:231-270 | If ESP and the 32 saved bytes are intact, POPA gives back all registers but EBX, which it leaves, whatever changed in between; 7 further cycles each |
| Stack.PushaCodePopa | src/CPU/CPU_state_machine_instructions.cpp:231-286 | PUSHA, any well-bracketed code with room for its depth, then POPA: no fault, all registers but EBX as at the start, and the bytes from the first ESP on unchanged |
| Stack.PushaLayout | src/CPU/CPU_state_machine_instructions.cpp:249-270 | Which register is where in the 32 bytes after PUSHA |
| Stack.PopaReads | src/CPU/CPU_state_machine_instructions.cpp:231-248 | Which bytes POPA puts in which register, for any contents whose place for ESP holds the ESP of that moment |
| Stack.PushaRuns | src/CPU/CPU_state_machine_instructions.cpp:249-270 | What PUSHA puts at each place, with the saved ESP in place of EBX |
| Stack.PopaRuns | src/CPU/CPU_state_machine_instructions.cpp:231-248 | What POPA has restored before each iteration |
| Cpu.Cpu.Push | src/CPU/CPU.cpp:317-345 | ESP and memory after a push in any region, also when the write faults |
| Cpu.Cpu.Pop | src/CPU/CPU.cpp:352-382 | The value, and ESP only moved after a good read, in any region |
| Cpu.Cpu.ExecPush | src/CPU/CPU_non_arithmetic_instructions.cpp:116-121 | Registers, memory and EIP + 1 after PUSH in any region; on the stack it is the step of the stack machine |
| Cpu.Cpu.ExecPop | src/CPU/CPU_non_arithmetic_instructions.cpp:100-105 | Registers and EIP + 1 after POP from any region, to any register; on the stack it is the step of the stack machine |
| Cpu.Cpu.ExecCall | src/CPU/CPU_state_machine_instructions.cpp:60-69 | Registers and memory after CALL in any region, with EIP + 1 pushed; on the stack it is the step of the stack machine |
| Cpu.Cpu.ExecRet | src/CPU/CPU_state_machine_instructions.cpp:132-142 | Registers after RET in any region, its operand asking for twice as many bytes; on the stack it is the step of the stack machine |
| Cpu.Cpu.ExecJcc | src/CPU/CPU_state_machine_instructions.cpp:197-230 | The jump is taken exactly when the condition holds, otherwise EIP + 1 follows, and a bad code does nothing |
| Cpu.Cpu.ExecSub | src/CPU/CPU_arithmetic_instructions.cpp:709-726 | SUB for operands of all sizes, and EIP + 1 |
| Cpu.Cpu.SubThenJcc | src/CPU/CPU_state_machine_instructions.cpp:197-230 | SUB then Jcc, on operands of 8, 16 or 32 bits and with the carry clear before, jumps exactly when the comparison that the condition names holds |
| Cpu.Cpu.PushaCycle | src/CPU/CPU_state_machine_instructions.cpp:249-270 | One cycle of PUSHA in any region; on the stack it is one iteration of the stack machine |
| Cpu.Cpu.PopaCycle | src/CPU/CPU_state_machine_instructions.cpp:231-248 | One cycle of POPA from any region, or its fault |
| Cpu.Cpu.ExecPusha | src/CPU/CPU_state_machine_instructions.cpp:249-286 | Registers, memory, EIP + 1 and cycles after PUSHA in any regions, also when a push faults; on the stack it is PUSHA of the stack machine |
| Cpu.Cpu.ExecPopa | src/CPU/CPU_state_machine_instructions.cpp:231-286 | Registers, EIP + 1 and cycles after POPA from any regions, also when a pop faults; on the stack it is POPA of the stack machine |
| Cpu.PushaOnStack | src/CPU/CPU_state_machine_instructions.cpp:249-286 | Pushes that stay in the stack region are those of the stack machine, iteration by iteration |
| Cpu.PopaOnStack | src/CPU/CPU_state_machine_instructions.cpp:231-286 | Pops that stay in the stack region are those of the stack machine, wherever the popped ESP leads |
| Cpu.Cpu.RunCode | src/CPU/CPU.cpp:317-382 | A list of PUSH, POP, CALL and RET, executed one after the other, is the run of the stack machine |
| Cpu.Cpu.RunNested | src/CPU/CPU.cpp:317-382 | Well-bracketed PUSH, POP, CALL and RET executed on the processor end with ESP where it began and the bytes from there on unchanged |

## Left out
- Addresses and pointers of the host: positions are numbers, and the placement of the cells is the separate module `BuddyArena` rather than the identity of the objects.
- Granularities of 32 and more in `deallocate` of a size and address that get to the shifts: they are undefined in C++.
- BuddyMemory.StaticBinaryTreeManagedMemory.Deallocate: after a free that breaks the masks it states the tree that results, and nothing of what later calls do to it.
- Instructions.ExecImul: where the signed product does not fit, the flags are stated as the sum of the cut partial products reaching 2^32; only for non-negative operands with a product below 2^32 does `AluOverflow.SignedOverflow` say more: they stay clear.
- Accesses that run over the end of a region's array: the source does not check them, and the contracts ask for accesses that fit.
- The one switch over arithmetic opcodes: each opcode is its own method, and the step of EIP at its end is modelled for SUB only.
- Register writes of 8 and 16 bits, which OR into the old value, and multiplications and divisions of these sizes.
- ALU operations on 64-bit words whose masks start at `1 << 63` (comparisons, sign tests): undefined for an `int` in C++, and not used there.
- Shifts, and the instructions BSF, BSR, BT, SHFT, SHD, the overflow flag of ROT, INC, DEC, NEG, CMP, SBB, CBW, MOVSX and the decimal adjustments.
- LOOP, ENTER, LEAVE, IRET and pushes or pops of 16 bits.
- Instruction fetch and decoding, operand fetch, interrupts, descriptor tables, segment and control registers, IO ports.
- Program loading, logging, printing and the monitor of changes per cycle.
