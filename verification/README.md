# Universal Machine emulator: a Dafny model

This project models the core of a C emulator for the Universal Machine (UM). The UM has
eight 32-bit registers and a program counter. Its memory is a store of numbered segments of
32-bit words. Its program is segment 0, loaded from a file of big-endian words. The
emulator has three pieces, and each has a module here:

- `Memory` (memory.c): the segment store. It is a sequence of slots, each a live segment or
  unmapped. Beside it is a first-in first-out queue of the unmapped indices waiting for
  reuse. The module covers allocation, freeing, duplication into slot 0, bounds-checked
  word access and the length of slot 0.
- `Decoding` and `Instructions` (instructions.c, instructions.h): `handle_instruction`
  splits a word into a 4-bit opcode and either three 3-bit register fields or a register
  plus a 25-bit immediate. It then runs one of fourteen operations.
- `Driver` (driver.c): the loader, which packs the file's bytes into segment 0, and the
  fetch loop `drive_program`.

`Words` holds 32-bit words as bounded integers, with a bit-level view for NAND. `Outcomes`
holds the `Result` type. Every C `assert`, every checked runtime error of the `Seq_T` and
`UArray_T` containers, and the `Invalid_Instruction` exception becomes the single value
`Fault`, because each of them aborts the emulator. `Scenarios` runs concrete instructions
and whole programs through the model, from their file bytes to their output.

The machine is immutable. A `Machine` holds the store, the registers, the program counter,
the input still to be read and the output written so far. One pass of the fetch loop is the
pure function `Driver.Step`, and `Driver.Run` is the loop bounded by fuel.

Where the code's behaviour differs from its own comments or from the usual description of
the UM, the model follows the code:

- Reuse of freed indices is first-in first-out: `segment_new` takes the head of the
  unmapped queue and `segment_free` appends to its back (memory.c:57-60, memory.c:101). The
  lowest free index is not preferred. `Memory.ReuseIsOldestFirst` states this.
- A program that runs off the end of segment 0 without HALT faults. It does not end
  normally: the loop leaves with `drive` still true and `assert(!drive)` aborts
  (driver.c:128, driver.c:137). `Driver.RunOffEndCrashes` states this.
- `segment_free` accepts index 0. Only `unmap_segment` rejects it, and it does so before the
  store is touched (instructions.c:302).
- `segment_new` takes an `unsigned` word count and hands it to `UArray_new`, whose length
  is an `int` (memory.c:41, memory.c:48). A count of 2^31 or more arrives as a negative
  length, which `UArray_new` rejects. So `Memory.SegmentNew`, and with it map-segment, faults
  for such a count instead of allocating.
- The doc comment of segmented store names `m[r[B]][r[C]]`. The code writes `r[C]` into
  `m[r[A]][r[B]]` (instructions.c:159-163). `Instructions.SegmentedStore` follows the code.

## Model

| member | source | states |
|---|---|---|
| `Memory.SegmentNew` | memory.c:41-68 | zero words is a fault, and so is a count of 2^31 or more, which `UArray_new`'s `int` length turns negative. On a valid store it succeeds exactly when the count is between 1 and 2^31 - 1 and the pool is non-empty or a new index still fits in MAX_INDEX. The new segment has exactly the requested number of words, all zero, and every other slot is unchanged. With an empty pool a slot is appended and its index (the old length) is returned. Otherwise the pool's head is returned and removed, and the length stays the same |
| `Memory.Zeros` | memory.c:48 | the segment `UArray_new` creates has exactly the requested length, and every word is 0 |
| `Memory.SegmentFree` | memory.c:87-102 | succeeds exactly when the index is in range and the slot is live. The slot becomes unmapped, the index goes to the back of the pool, and no other slot changes. Index 0 is not rejected |
| `Memory.LoadSegment` | memory.c:121-144 | index 0 changes nothing. Any other index succeeds exactly when it is in range and both slot 0 and the source slot are live. Slot 0 then equals the source slot, every other slot and the pool are unchanged |
| `Memory.SegmentRead` | memory.c:162-171 | a read succeeds exactly when the index is in range, the slot is live and the offset is inside it |
| `Memory.SegmentWrite` | memory.c:162-171 | a write through `segment_at` succeeds under the same bounds. It keeps every slot's mapped status, the segment's length and the pool, and leaves every other slot unchanged |
| `Memory.ReadAfterWrite` | memory.c:165-169 | after a write the written word reads back as the stored value, and every other (segment, offset) reads exactly as before |
| `Memory.NumInstructions` | memory.c:218-224 | faults exactly when slot 0 is missing or unmapped. Otherwise an offset is below the result exactly when it is addressable in slot 0 |
| `Memory.NewPreservesValid` | memory.c:51-66 | allocation keeps the pool an exact, duplicate-free list of the unmapped slots |
| `Memory.FreePreservesValid` | memory.c:91-101 | freeing keeps the pool an exact, duplicate-free list of the unmapped slots |
| `Memory.WritePreservesValid` | memory.c:165-169 | a word write keeps the pool invariant |
| `Memory.LoadSegmentPreservesValid` | memory.c:126-143 | duplicating a segment into slot 0 keeps the pool invariant |
| `Memory.NewAvoidsSlotZero` | memory.c:51-66 | while slot 0 is live, allocation never returns index 0 and leaves slot 0 unchanged |
| `Memory.FreeThenNewReuses` | memory.c:57-63 | an index freed into an empty pool is the next one allocated, and it comes back zero-filled |
| `Memory.ReuseIsOldestFirst` | memory.c:57-60 | after freeing `first` and then `second`, the next two allocations return `first` and then `second`, whatever their numeric order |
| `Decoding.Code` | instructions.h:44-47 | the opcode numbering: the thirteen register-form operators are numbered 0 to 12 |
| `Decoding.OperatorOf` | instructions.h:44-47 | the operator with number n below 13, the inverse of the numbering |
| `Decoding.OperatorOfCode` | instructions.h:44-47 | numbering an operator and then looking it up gives the same operator back |
| `Decoding.Decode` | instructions.c:42-45 | every word decodes to a well-formed instruction: only opcodes 14 and 15 are invalid |
| `Decoding.EncodeDecode` | instructions.c:42-45 | decoding reads exactly the documented fields. For load-value, re-encoding gives the word back. For a register form, it gives the word with bits 27..9 cleared. For an invalid opcode, it gives the word with bits 27..0 cleared |
| `Decoding.ImmediateFields` | instructions.c:76-77 | for load-value, the register is bits 27..25 and the immediate is bits 24..0 |
| `Decoding.RegisterFields` | instructions.c:42-45 | opcode, A, B and C are bits 31..28, 8..6, 5..3 and 2..0 of an encoded word |
| `Decoding.DecodeEncode` | instructions.c:42-45 | every instruction survives encoding then decoding |
| `Decoding.DecodedOpcode` | instructions.c:48-80 | a word decodes to a register form with the opcode of its top nibble, to load-value exactly when the nibble is 13, and to an invalid instruction exactly when it is 14 or 15 |
| `Instructions.ConditionalMove` | instructions.c:102-112 | register A takes register B when register C is non-zero. Otherwise the registers are unchanged |
| `Instructions.SegmentedLoad` | instructions.c:129-138 | succeeds exactly when (r[B], r[C]) is addressable. Only register A changes, and it becomes that word |
| `Instructions.SegmentedStore` | instructions.c:155-164 | succeeds exactly when (r[A], r[B]) is addressable. Only the store changes: that word then reads as r[C] and every other word reads as before. The reuse pool and the number of slots are unchanged, and the new store is exactly `segment_at`'s single-word write (memory.c:162-171) |
| `Instructions.Addition` | instructions.c:180-186 | only register A changes, and it becomes r[B] + r[C] less 2^32 when the sum overflows |
| `Instructions.Multiply` | instructions.c:202-208 | only register A changes, and it becomes the 32-bit word congruent to r[B] * r[C] modulo 2^32 |
| `Instructions.Division` | instructions.c:224-232 | faults exactly when r[C] is 0. Otherwise only register A changes, and it becomes the quotient rounded down |
| `Instructions.BitwiseNand` | instructions.c:248-255 | only register A changes, and each of its 32 bits is the NAND of the matching bits of r[B] and r[C] |
| `Words.NotAndIsBitwise` | instructions.c:251-254 | each bit of `~(x & y)` on 32-bit words is the NAND of the operands' bits |
| `Words.NotAndSelf` | instructions.c:251-254 | NAND of a word with itself is its complement |
| `Words.NotAndExtremes` | instructions.c:251-254 | NAND of all ones is zero, and NAND of zeros is all ones |
| `Words.NotAnd` | instructions.c:254 | `~(reg_B & reg_C)` on 32-bit words. It has no contract of its own. `Words.NotAndIsBitwise` states its meaning bit by bit |
| `Words.AndBits` | instructions.c:254 | the bitwise AND is no larger than either operand |
| `Instructions.MapSegment` | instructions.c:273-279 | succeeds exactly when `segment_new(r[C])` does, so r[C] = 0 and r[C] of 2^31 or more fault. Only the store and register B change. B holds the new index, whose segment has exactly r[C] addressable words, all reading 0 |
| `Instructions.UnmapSegment` | instructions.c:298-304 | r[C] = 0 faults before the store is consulted. Any other index succeeds exactly when it names a live slot, and the store becomes `segment_free`'s result |
| `Instructions.Output` | instructions.c:320-326 | succeeds exactly when r[C] is at most 255, and then appends exactly that byte to the output |
| `Instructions.Input` | instructions.c:343-355 | only register C and the input change. With input left, C takes the next byte, which leaves the stream. At end of input, C becomes 0xFFFFFFFF |
| `Instructions.LoadProgram` | instructions.c:373-383 | succeeds exactly when segment r[B] is live, slot 0 is live, and r[C] lies inside segment r[B]. Slot 0 becomes a copy of segment r[B], other slots and the pool are unchanged, and pc becomes r[C]. With r[B] = 0 only pc changes |
| `Instructions.LoadValue` | instructions.c:399-404 | only register A changes, and it becomes the immediate, which is below 2^25 |
| `Instructions.HandleInstruction` | instructions.c:38-85 | the word halts exactly when its opcode is 7, and faults for opcodes 14 and 15. Conditional move, add, multiply, nand and load-value always continue and change only registers. Only load-program moves pc, and it moves it to r[C]. Output grows by at most one byte, and input is only consumed from the front. `Instructions.Dispatch` states the whole opcode table |
| `Instructions.Execute` | instructions.c:48-79 | the `switch` on the decoded instruction. It has no contract of its own. `Instructions.Dispatch` pins each case to its instruction, and `Instructions.ExecutePreservesValid` states what every case keeps |
| `Instructions.Dispatch` | instructions.c:42-79 | the opcode table, one clause per opcode. 0 to 6 are conditional move, segmented load, segmented store, add, multiply, divide and nand on the fields A, B and C. Divide faults exactly when r[C] is 0. 7 halts. 8 to 12 are map, unmap, output, input and load-program on B and C. 13 is load-value with the register in bits 27..25 and the immediate in bits 24..0. 14 and 15 fault |
| `Instructions.HandlePreservesValid` | instructions.c:48-79 | every instruction that continues keeps the pool invariant and a live segment 0 |
| `Instructions.ExecutePreservesValid` | instructions.c:48-79 | the same, case by case on the decoded instruction |
| `Driver.PackWord` | driver.c:90-94 | the four `Bitpack_newu` calls, with the first byte as bits 31..24. It has no contract of its own. `Driver.UnpackOfPack` and `Driver.PackOfUnpack` state that it and `Driver.UnpackWord` invert each other |
| `Driver.UnpackWord` | driver.c:90-94 | a word splits into four bytes |
| `Driver.PackOfUnpack` | driver.c:90-94 | packing the four bytes of a word big-endian gives the word back |
| `Driver.UnpackOfPack` | driver.c:90-94 | unpacking a packed word gives its four bytes back, most significant first |
| `Driver.Image` | driver.c:79-98 | the loaded image has length filesize / 4, and word i is bytes 4i..4i+3 packed big-endian, so trailing bytes are ignored |
| `Driver.Serialize` | driver.c:89-94 | the file for n words has 4n bytes |
| `Driver.ImageOfSerialize` | driver.c:89-98 | loading the file written for a program gives the program back |
| `Driver.SerializeOfImage` | driver.c:79-98 | writing out a loaded image gives back the file without its trailing bytes |
| `Driver.InitialMachine` | driver.c:79-106 | a file shorter than four bytes faults, and so does one holding 2^31 words or more. Otherwise segment 0 holds the image at index 0, the pool is empty, the registers are zero, pc is 0, and the store invariant holds |
| `Driver.InitializeMachine` | driver.c:79-106 | the loader's word-by-word loop through `segment_at` builds exactly that initial machine |
| `Driver.Fetch` | driver.c:128-131 | a fetch succeeds exactly when pc is addressable in segment 0, so it never faults while the loop guard holds |
| `Driver.Step` | driver.c:128-137 | pc at or past the end of segment 0 faults. A step that does not fault fetched a word. A halt fetched a HALT. Load-program sets pc to r[C]. Every other continuing instruction advances pc by exactly 1. A step that continues keeps the machine invariant |
| `Driver.Run` | driver.c:124-138 | the loop runs until HALT, a fault or the fuel bound. A run finishes only just after executing HALT, output is only ever appended, and the machine invariant holds throughout |
| `Driver.RunUnfolds` | driver.c:124-138 | one iteration of the loop: a faulting step ends the run with the output so far, a halting step finishes it, and a continuing step leaves the rest of the run to the next machine with one less unit of fuel |
| `Driver.RunAdds` | driver.c:127-136 | a run with a + b units of fuel is the run with a units, continued with b more units from where it stopped when it ran out of fuel. A run that finished or crashed within a instructions ends exactly the same way with any extra fuel |
| `Driver.RunInLegs` | driver.c:127-136 | following a run of n = a + b instructions leg by leg gives the run of n. If the first leg of a instructions runs out of fuel, the result is the second leg of b instructions from where it stopped; otherwise the result is how the first leg ended |
| `Driver.RunAddsStopped` | driver.c:128-135 | a run whose first step halts or faults does not depend on the fuel |
| `Driver.RunOffEndCrashes` | driver.c:128-137 | reaching the end of segment 0 without HALT is a fault, not a normal end |
| `Scenarios.AdditionWraps` | instructions.c:183-185 | 0xFFFFFFFF + 2 gives 1 |
| `Scenarios.DivisionExamples` | instructions.c:227-231 | 7 / 2 gives 3, and dividing by 0 faults |
| `Scenarios.OutputExamples` | instructions.c:323-325 | 65 is emitted as the byte 0x41, and 256 faults |
| `Scenarios.InputAtEnd` | instructions.c:349-352 | at end of input the register becomes 0xFFFFFFFF |
| `Scenarios.LoadValueAllOnes` | instructions.c:76-77 | 0xDFFFFFFF loads 0x1FFFFFF into register 7 |
| `Scenarios.Loaded` | driver.c:79-106 | the file written for a non-empty program loads as that program, with zero registers and an empty pool |
| `Scenarios.HaltOnly` | driver.c:124-138 | a single HALT finishes with no output |
| `Scenarios.EchoLoadStep` | instructions.c:76-77 | the step from pc 0 of the echo program loads 65 into register 1 and moves pc to 1 |
| `Scenarios.EchoOutputStep` | instructions.c:322-325 | the step from pc 1 appends the byte 65 to the output and moves pc to 2 |
| `Scenarios.EchoHaltStep` | driver.c:128-135 | the step from pc 2 of the echo program halts |
| `Scenarios.EchoPrintsOneByte` | driver.c:124-138 | load-value 65, output, halt finishes, having passed exactly [65] to `putchar` |
| `Scenarios.EchoWithoutHaltFaults` | driver.c:128-137 | the same program without HALT passes 65 to `putchar` and then faults at the end of segment 0 |

## Left out

- `free_memory` (memory.c:186-204) and `free_program` (driver.c:154-159): they only deallocate, and nothing
  observable depends on them in a model without manual memory management.
- `main`'s argument check, `fopen` and `stat`: the loader takes the file's bytes as a
  sequence. Reading the file and printing to the terminal are not modelled. `getc` on stdin
  is the `input` byte sequence, and `putchar` appends to the `output` sequence.
- The loader stores `st_size` in an `int`, which truncates files of 2 GiB or more. The model
  uses the exact length, so only a file of 2^31 words or more meets the segment-length
  fault.
- The MAX_INDEX check in `segment_new` is modelled as written: the new last index must be at
  most 0xFFFFFFFF. In C `Seq_length` is an `int`, so the check can never fail there. Running
  out of host memory is not modelled.
- `load_segment` frees the old slot 0 before it checks the source slot, and `load_program`
  checks the new pc only after slot 0 has been replaced. The store in between cannot be
  seen, because every fault aborts the emulator. The model returns `Fault` without the
  partial update.
- A crashed run keeps only the output written before the fault (`Crashed(output)`). The
  aborted machine state is not modelled.
- Buffering of standard output is not modelled. `output` is the sequence of bytes passed to
  `putchar`. Every fault ends in `abort()`, which does not flush stdout, so bytes still in
  the buffer at a fault are normally never written. `Crashed(output)` is what the program
  asked to print, not what the process emits.
- Driver.Run: a UM program need not terminate, so a run is bounded by `fuel`. A run that
  uses up its fuel ends in `OutOfFuel` with its current machine. `Driver.RunAdds` relates a
  longer run to a shorter one followed by the rest, so a run that finished or crashed is
  the same with any larger bound. A run that never halts is never characterised as a whole.
- The exception machinery of `Except_T`/`RAISE`, the Hanson container internals and
  `Bitpack`: faults are the single `Fault` value, the containers are sequences, and bit
  fields are division and remainder by powers of two.
