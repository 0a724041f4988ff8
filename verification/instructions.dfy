/** The fourteen instructions of instructions.c and `handle_instruction`, which decodes
    a word and dispatches to them. */
module Instructions {
  import opened Words
  import opened Outcomes
  import opened Memory
  import opened Decoding

  /** The eight-register `UArray_T`. */
  type Registers = s: seq<Word> | |s| == 8 witness [0, 0, 0, 0, 0, 0, 0, 0]

  /** `machine_state` together with the standard streams the machine reads and writes:
      `input` is what `getc` has still to deliver, `output` the bytes passed to `putchar` so far. */
  datatype Machine = Machine(store: Store, regs: Registers, pc: nat, input: seq<Byte>, output: seq<Byte>)

  /** What `handle_instruction` leads to: keep running (it returned true), stop
      (HALT, it returned false), or abort the emulator. */
  datatype Effect = Running(machine: Machine) | Halted | Faulted

  /** No register other than `a` differs between `before` and `after`. */
  predicate Frame(before: Registers, after: Registers, a: Reg)
  {
    forall i :: 0 <= i < 8 && i != a ==> after[i] == before[i]
  }

  /** `after` is `before` with register `a` set to `v`. */
  predicate Sets(before: Registers, after: Registers, a: Reg, v: Word)
  {
    after[a] == v && Frame(before, after, a)
  }

  /** The segment store invariant, plus a live program segment at index 0. */
  predicate MachineValid(m: Machine)
  {
    Valid(m.store) && |m.store.slots| > 0 && m.store.slots[0].Mapped?
  }

  /** `conditional_move`: register A takes register B exactly when register C is not 0. */
  function ConditionalMove(a: Reg, b: Reg, c: Reg, regs: Registers): (r: Registers)
    ensures regs[c] != 0 ==> Sets(regs, r, a, regs[b])
    ensures regs[c] == 0 ==> r == regs
  {
    if regs[c] != 0 then regs[a := regs[b]] else regs
  }

  /** `segmented_load`: register A takes the word at offset r[C] of segment r[B]. */
  function SegmentedLoad(a: Reg, b: Reg, c: Reg, m: Machine): (r: Result<Machine>)
    ensures r.Ok? <==> Addressable(m.store, m.regs[b], m.regs[c])
    ensures r.Ok? ==>
              && r.value == m.(regs := r.value.regs)
              && Sets(m.regs, r.value.regs, a, m.store.slots[m.regs[b]].words[m.regs[c]])
  {
    var word :- SegmentRead(m.store, m.regs[b], m.regs[c]);
    Ok(m.(regs := m.regs[a := word]))
  }

  /** `segmented_store`: r[C] is written at offset r[B] of segment r[A], and no other
      word a read could observe changes. */
  function SegmentedStore(a: Reg, b: Reg, c: Reg, m: Machine): (r: Result<Machine>)
    ensures r.Ok? <==> Addressable(m.store, m.regs[a], m.regs[b])
    ensures r.Ok? ==> r.value == m.(store := r.value.store)
    ensures r.Ok? ==> SegmentRead(r.value.store, m.regs[a], m.regs[b]) == Ok(m.regs[c])
    ensures r.Ok? ==> forall h: nat, o: nat :: h != m.regs[a] || o != m.regs[b] ==>
                        SegmentRead(r.value.store, h, o) == SegmentRead(m.store, h, o)
    ensures r.Ok? ==> r.value.store.pool == m.store.pool && |r.value.store.slots| == |m.store.slots|
    ensures r.Ok? ==> r.value.store == SegmentWrite(m.store, m.regs[a], m.regs[b], m.regs[c]).value
  {
    var st :- SegmentWrite(m.store, m.regs[a], m.regs[b], m.regs[c]);
    ReadAfterWrite(m.store, m.regs[a], m.regs[b], m.regs[c]);
    Ok(m.(store := st))
  }

  /** `add`: 32-bit unsigned addition, which drops the carry out of bit 31. */
  function Addition(a: Reg, b: Reg, c: Reg, regs: Registers): (r: Registers)
    ensures Sets(regs, r, a, if regs[b] as int + regs[c] < WordModulus then regs[b] as int + regs[c]
                             else regs[b] as int + regs[c] - WordModulus)
  {
    regs[a := (regs[b] + regs[c]) % WordModulus]
  }

  /** `multiply`: 32-bit unsigned multiplication, congruent to the exact product. */
  function Multiply(a: Reg, b: Reg, c: Reg, regs: Registers): (r: Registers)
    ensures Frame(regs, r, a)
    ensures (r[a] - (regs[b] as int) * regs[c]) % WordModulus == 0
  {
    regs[a := (regs[b] * regs[c]) % WordModulus]
  }

  /** `division`: unsigned quotient rounded down; dividing by zero aborts. */
  function Division(a: Reg, b: Reg, c: Reg, regs: Registers): (r: Result<Registers>)
    ensures r.Fault? <==> regs[c] == 0
    ensures r.Ok? ==>
              && Frame(regs, r.value, a)
              && (r.value[a] as int) * regs[c] <= regs[b] < (r.value[a] as int + 1) * regs[c]
  {
    if regs[c] == 0 then Fault else Ok(regs[a := regs[b] / regs[c]])
  }

  /** `nand`: every bit of register A is the NAND of the matching bits of B and C. */
  function BitwiseNand(a: Reg, b: Reg, c: Reg, regs: Registers): (r: Registers)
    ensures Frame(regs, r, a)
    ensures forall k :: 0 <= k < 32 ==> Bit(r[a], k) == !(Bit(regs[b], k) && Bit(regs[c], k))
  {
    NotAndAllBits(regs[b], regs[c]);
    regs[a := NotAnd(regs[b], regs[c])]
  }

  lemma NotAndAllBits(x: Word, y: Word)
    ensures forall k :: 0 <= k < 32 ==> Bit(NotAnd(x, y), k) == !(Bit(x, k) && Bit(y, k))
  {
    forall k | 0 <= k < 32
      ensures Bit(NotAnd(x, y), k) == !(Bit(x, k) && Bit(y, k))
    {
      NotAndIsBitwise(x, y, k);
    }
  }

  /** `map_segment`: register B receives the index `segment_new` hands out for a
      segment of r[C] words, which reads back as zero throughout. */
  function MapSegment(b: Reg, c: Reg, m: Machine): (r: Result<Machine>)
    ensures r.Ok? <==> SegmentNew(m.store, m.regs[c]).Ok?
    ensures m.regs[c] == 0 || m.regs[c] > MaxSegmentWords ==> r.Fault?
    ensures r.Ok? ==>
              && r.value == m.(store := r.value.store, regs := r.value.regs)
              && Sets(m.regs, r.value.regs, b, SegmentNew(m.store, m.regs[c]).value.handle)
              && r.value.store == SegmentNew(m.store, m.regs[c]).value.store
    ensures r.Ok? ==> forall k: nat :: Addressable(r.value.store, r.value.regs[b], k) <==> k < m.regs[c]
    ensures r.Ok? ==> forall k: nat :: k < m.regs[c] ==> SegmentRead(r.value.store, r.value.regs[b], k) == Ok(0)
  {
    var alloc :- SegmentNew(m.store, m.regs[c]);
    Ok(m.(store := alloc.store, regs := m.regs[b := alloc.handle]))
  }

  /** `unmap_segment`: segment 0 is refused before the store is consulted; any other
      index is handed to `segment_free`. */
  function UnmapSegment(c: Reg, m: Machine): (r: Result<Machine>)
    ensures m.regs[c] == 0 ==> r.Fault?
    ensures m.regs[c] != 0 ==> (r.Ok? <==> m.regs[c] < |m.store.slots| && m.store.slots[m.regs[c]].Mapped?)
    ensures r.Ok? ==> r.value == m.(store := SegmentFree(m.store, m.regs[c]).value)
  {
    if m.regs[c] == 0 then Fault
    else
      var st :- SegmentFree(m.store, m.regs[c]);
      Ok(m.(store := st))
  }

  /** `output`: register C must hold a byte, which is appended to the output stream. */
  function Output(c: Reg, m: Machine): (r: Result<Machine>)
    ensures r.Ok? <==> m.regs[c] <= 255
    ensures r.Ok? ==> r.value == m.(output := m.output + [m.regs[c]])
  {
    if m.regs[c] <= 255 then Ok(m.(output := m.output + [m.regs[c]])) else Fault
  }

  /** `input`: register C takes the next input byte, which leaves the stream, or the
      all-ones word once the stream is exhausted. */
  function Input(c: Reg, m: Machine): (r: Machine)
    ensures r == m.(regs := r.regs, input := r.input)
    ensures |m.input| == 0 ==> Sets(m.regs, r.regs, c, MaxWord) && r.input == []
    ensures |m.input| > 0 ==> Frame(m.regs, r.regs, c) && m.input == [r.regs[c]] + r.input
  {
    if |m.input| == 0 then m.(regs := m.regs[c := MaxWord])
    else m.(regs := m.regs[c := m.input[0]], input := m.input[1..])
  }

  /** `load_program`: segment r[B] is duplicated into slot 0 and the program counter
      moves to r[C], which must lie inside the new program. With r[B] = 0 only the
      program counter changes. */
  function LoadProgram(b: Reg, c: Reg, m: Machine): (r: Result<Machine>)
    ensures r.Ok? <==>
              && m.regs[b] < |m.store.slots|
              && m.store.slots[0].Mapped?
              && m.store.slots[m.regs[b]].Mapped?
              && m.regs[c] < |m.store.slots[m.regs[b]].words|
    ensures r.Ok? ==>
              && r.value == m.(store := r.value.store, pc := m.regs[c])
              && r.value.store.pool == m.store.pool
              && |r.value.store.slots| == |m.store.slots|
              && r.value.store.slots[0] == m.store.slots[m.regs[b]]
              && (forall h :: 0 < h < |m.store.slots| ==> r.value.store.slots[h] == m.store.slots[h])
    ensures r.Ok? && m.regs[b] == 0 ==> r.value == m.(pc := m.regs[c])
  {
    var st :- LoadSegment(m.store, m.regs[b]);
    // the bound is checked against the segment that is now at slot 0
    var n :- NumInstructions(st);
    if m.regs[c] < n then Ok(m.(store := st, pc := m.regs[c])) else Fault
  }

  /** `load_value`: register A takes the 25-bit immediate. */
  function LoadValue(a: Reg, regs: Registers, value: Immediate): (r: Registers)
    ensures Sets(regs, r, a, value)
    ensures r[a] < ImmediateModulus
  {
    regs[a := value]
  }

  /** Conditional move, add, multiply, nand and load-value: the opcodes whose instruction
      can only change registers. */
  predicate RegisterOnly(opcode: nat)
  {
    opcode == Code(Cmov) || opcode == Code(Add) || opcode == Code(Mul) || opcode == Code(Nand)
    || opcode == LoadValueCode
  }

  /** `handle_instruction`, executed after the driver has advanced the program counter. */
  function HandleInstruction(word: Word, m: Machine): (e: Effect)
    ensures e.Halted? <==> word / OpcodeUnit == Code(Halt)
    ensures word / OpcodeUnit >= 14 ==> e.Faulted?
    ensures RegisterOnly(word / OpcodeUnit) ==>
              e.Running? && e.machine == m.(regs := e.machine.regs)
    ensures e.Running? && word / OpcodeUnit != Code(Loadp) ==> e.machine.pc == m.pc
    ensures e.Running? && word / OpcodeUnit == Code(Loadp) ==> e.machine.pc == m.regs[word % 8]
    ensures e.Running? ==> StreamsAdvance(m, e.machine)
  {
    DecodedOpcode(word);
    Execute(Decode(word), m)
  }

  /** The table of `handle_instruction`'s `switch`: which instruction each opcode runs,
      on the register fields A (bits 8..6), B (5..3) and C (2..0), or for load-value on
      the register in bits 27..25 and the immediate in bits 24..0. */
  lemma Dispatch(word: Word, m: Machine)
    ensures var op, a, b, c := word / OpcodeUnit, word / 64 % 8, word / 8 % 8, word % 8;
            && (op == 0 ==> HandleInstruction(word, m) == Running(m.(regs := ConditionalMove(a, b, c, m.regs))))
            && (op == 1 ==> HandleInstruction(word, m) == Continue(SegmentedLoad(a, b, c, m)))
            && (op == 2 ==> HandleInstruction(word, m) == Continue(SegmentedStore(a, b, c, m)))
            && (op == 3 ==> HandleInstruction(word, m) == Running(m.(regs := Addition(a, b, c, m.regs))))
            && (op == 4 ==> HandleInstruction(word, m) == Running(m.(regs := Multiply(a, b, c, m.regs))))
            && (op == 5 && m.regs[c] == 0 ==> HandleInstruction(word, m) == Faulted)
            && (op == 5 && m.regs[c] != 0 ==> HandleInstruction(word, m) == Running(m.(regs := Division(a, b, c, m.regs).value)))
            && (op == 6 ==> HandleInstruction(word, m) == Running(m.(regs := BitwiseNand(a, b, c, m.regs))))
            && (op == 7 ==> HandleInstruction(word, m) == Halted)
            && (op == 8 ==> HandleInstruction(word, m) == Continue(MapSegment(b, c, m)))
            && (op == 9 ==> HandleInstruction(word, m) == Continue(UnmapSegment(c, m)))
            && (op == 10 ==> HandleInstruction(word, m) == Continue(Output(c, m)))
            && (op == 11 ==> HandleInstruction(word, m) == Running(Input(c, m)))
            && (op == 12 ==> HandleInstruction(word, m) == Continue(LoadProgram(b, c, m)))
            && (op == 13 ==> HandleInstruction(word, m) == Running(m.(regs := LoadValue(word / ImmediateModulus % 8, m.regs, word % ImmediateModulus))))
            && (op >= 14 ==> HandleInstruction(word, m) == Faulted)
  {
  }

  /** Output only grows, by at most one byte, and input is only consumed from its front. */
  predicate StreamsAdvance(before: Machine, after: Machine)
  {
    && before.output <= after.output
    && |after.output| <= |before.output| + 1
    && |after.input| <= |before.input|
    && after.input == before.input[|before.input| - |after.input|..]
  }

  /** The `switch` of `handle_instruction` on a decoded instruction. */
  function Execute(i: Instruction, m: Machine): Effect
  {
    match i
    case Invalid(_) => Faulted
    case LoadImmediate(a, value) => Running(m.(regs := LoadValue(a, m.regs, value)))
    case Standard(op, a, b, c) =>
      match op
      case Cmov => Running(m.(regs := ConditionalMove(a, b, c, m.regs)))
      case Sload => Continue(SegmentedLoad(a, b, c, m))
      case Sstore => Continue(SegmentedStore(a, b, c, m))
      case Add => Running(m.(regs := Addition(a, b, c, m.regs)))
      case Mul => Running(m.(regs := Multiply(a, b, c, m.regs)))
      case Div =>
        (match Division(a, b, c, m.regs)
         case Ok(regs) => Running(m.(regs := regs))
         case Fault => Faulted)
      case Nand => Running(m.(regs := BitwiseNand(a, b, c, m.regs)))
      case Halt => Halted
      case Map => Continue(MapSegment(b, c, m))
      case Unmap => Continue(UnmapSegment(c, m))
      case Out => Continue(Output(c, m))
      case In => Running(Input(c, m))
      case Loadp => Continue(LoadProgram(b, c, m))
  }

  /** An instruction that returned normally keeps running; one that faulted aborts. */
  function Continue(r: Result<Machine>): (e: Effect)
    ensures e.Running? <==> r.Ok?
  {
    match r
    case Ok(m) => Running(m)
    case Fault => Faulted
  }

  /** Every instruction that completes keeps the pool exact and segment 0 live: map
      never hands out 0, unmap refuses 0, and load-program installs a live segment. */
  lemma HandlePreservesValid(word: Word, m: Machine)
    requires MachineValid(m)
    ensures HandleInstruction(word, m).Running? ==> MachineValid(HandleInstruction(word, m).machine)
  {
    if Execute(Decode(word), m).Running? {
      ExecutePreservesValid(Decode(word), m);
    }
  }

  lemma ExecutePreservesValid(i: Instruction, m: Machine)
    requires MachineValid(m)
    requires Execute(i, m).Running?
    ensures MachineValid(Execute(i, m).machine)
  {
    if i.Standard? {
      var a, b, c := i.a, i.b, i.c;
      match i.op
      case Sstore =>
        WritePreservesValid(m.store, m.regs[a], m.regs[b], m.regs[c]);
      case Map =>
        NewPreservesValid(m.store, m.regs[c]);
        NewAvoidsSlotZero(m.store, m.regs[c]);
      case Unmap =>
        FreePreservesValid(m.store, m.regs[c]);
      case Loadp =>
        LoadSegmentPreservesValid(m.store, m.regs[b]);
      case _ =>
    }
  }
}
