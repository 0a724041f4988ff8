/** driver.c: the loader that turns the program file into segment 0, and the fetch
    loop of `drive_program`. */
module Driver {
  import opened Words
  import opened Outcomes
  import opened Memory
  import opened Decoding
  import opened Instructions

  /** The four `Bitpack_newu` calls of the loader: the first byte read from the file
      becomes bits 31..24 of the word. */
  function PackWord(b0: Byte, b1: Byte, b2: Byte, b3: Byte): Word
  {
    b0 * 0x100_0000 + b1 * 0x1_0000 + b2 * 0x100 + b3
  }

  /** A word as the four bytes of the file it came from, most significant first. */
  function UnpackWord(w: Word): (bs: seq<Byte>)
    ensures |bs| == 4
  {
    [w / 0x100_0000, w / 0x1_0000 % 0x100, w / 0x100 % 0x100, w % 0x100]
  }

  lemma PackOfUnpack(w: Word)
    ensures PackWord(UnpackWord(w)[0], UnpackWord(w)[1], UnpackWord(w)[2], UnpackWord(w)[3]) == w
  {
    var q := w / 0x100;
    var q2 := q / 0x100;
    assert w == q * 0x100 + w % 0x100;
    assert q == q2 * 0x100 + q % 0x100;
    assert q2 == (q2 / 0x100) * 0x100 + q2 % 0x100;
    assert w / 0x1_0000 == q2;
    assert w / 0x100_0000 == q2 / 0x100;
  }

  lemma UnpackOfPack(b0: Byte, b1: Byte, b2: Byte, b3: Byte)
    ensures UnpackWord(PackWord(b0, b1, b2, b3)) == [b0, b1, b2, b3]
  {
    var w := PackWord(b0, b1, b2, b3);
    assert w == (b0 * 0x1_0000 + b1 * 0x100 + b2) * 0x100 + b3;
    assert w / 0x100 == (b0 * 0x100 + b1) * 0x100 + b2;
    assert w / 0x1_0000 == b0 * 0x100 + b1;
    assert w % 0x100 == b3;
    assert w / 0x100 % 0x100 == b2;
    assert w / 0x1_0000 % 0x100 == b1;
    assert w / 0x100_0000 == b0;
  }

  /** The words the loader builds from the file: one per whole group of four bytes,
      trailing bytes ignored. */
  function Image(bytes: seq<Byte>): (ws: seq<Word>)
    ensures |ws| == |bytes| / 4
    ensures forall i :: 0 <= i < |ws| ==>
              ws[i] == PackWord(bytes[4 * i], bytes[4 * i + 1], bytes[4 * i + 2], bytes[4 * i + 3])
    decreases |bytes|
  {
    if |bytes| < 4 then []
    else [PackWord(bytes[0], bytes[1], bytes[2], bytes[3])] + Image(bytes[4..])
  }

  /** The program file that holds the words `ws`. */
  function Serialize(ws: seq<Word>): (bytes: seq<Byte>)
    ensures |bytes| == 4 * |ws|
  {
    if |ws| == 0 then [] else UnpackWord(ws[0]) + Serialize(ws[1..])
  }

  /** Loading the file written for a program gives the program back. */
  lemma {:induction false} ImageOfSerialize(ws: seq<Word>)
    ensures Image(Serialize(ws)) == ws
  {
    if |ws| > 0 {
      var bytes := Serialize(ws);
      var u := UnpackWord(ws[0]);
      assert bytes == u + Serialize(ws[1..]);
      assert bytes[4..] == Serialize(ws[1..]);
      PackOfUnpack(ws[0]);
      ImageOfSerialize(ws[1..]);
    }
  }

  /** Writing out a loaded image gives back the file without its trailing bytes. */
  lemma {:induction false} SerializeOfImage(bytes: seq<Byte>)
    ensures Serialize(Image(bytes)) == bytes[..|bytes| / 4 * 4]
    decreases |bytes|
  {
    if |bytes| >= 4 {
      var ws := Image(bytes);
      assert ws[0] == PackWord(bytes[0], bytes[1], bytes[2], bytes[3]);
      assert ws[1..] == Image(bytes[4..]);
      UnpackOfPack(bytes[0], bytes[1], bytes[2], bytes[3]);
      SerializeOfImage(bytes[4..]);
      assert bytes[..|bytes| / 4 * 4] == bytes[..4] + bytes[4..][..|bytes[4..]| / 4 * 4];
    }
  }

  /** `UArray_new` zero-fills the register file. */
  const ZeroRegisters: Registers := [0, 0, 0, 0, 0, 0, 0, 0]

  /** `initialize_machine_state`, with the file given as its bytes: segment 0 holds the
      image at index 0, no index is pooled, every register is 0 and the program counter
      is 0. A file of fewer than four bytes asks `segment_new` for zero words, and one of
      2^33 bytes or more for more words than a segment can hold. */
  function InitialMachine(bytes: seq<Byte>, input: seq<Byte>): (r: Result<Machine>)
    ensures r.Fault? <==> |bytes| < 4 || |bytes| / 4 > MaxSegmentWords
    ensures r.Ok? ==> r.value == Machine(Store([Mapped(Image(bytes))], []), ZeroRegisters, 0, input, [])
    ensures r.Ok? ==> MachineValid(r.value)
  {
    var alloc :- SegmentNew(Empty, |bytes| / 4);
    if alloc.handle != 0 then Fault
    else Ok(Machine(Store(alloc.store.slots[0 := Mapped(Image(bytes))], alloc.store.pool), ZeroRegisters, 0, input, []))
  }

  /** The loader's loop: allocate segment 0, then store each packed word through
      `segment_at`. */
  method InitializeMachine(bytes: seq<Byte>, input: seq<Byte>) returns (r: Result<Machine>)
    ensures r == InitialMachine(bytes, input)
  {
    var numWords := |bytes| / 4;
    var alloc := SegmentNew(Empty, numWords);
    if alloc.Fault? {
      return Fault;
    }
    assert alloc.value.handle == 0;
    var st := alloc.value.store;
    var image := Image(bytes);
    assert st.slots[0].words == image[..0] + Zeros(numWords);
    assert st.slots == [st.slots[0]];
    var i := 0;
    while i < numWords
      invariant 0 <= i <= numWords
      invariant st == Store([Mapped(image[..i] + Zeros(numWords - i))], [])
    {
      var word := PackWord(bytes[4 * i], bytes[4 * i + 1], bytes[4 * i + 2], bytes[4 * i + 3]);
      ghost var filled := (image[..i] + Zeros(numWords - i))[i := word];
      st := SegmentWrite(st, 0, i, word).value;
      assert filled == image[..i + 1] + Zeros(numWords - i - 1) by {
        forall k | 0 <= k < numWords
          ensures filled[k] == (image[..i + 1] + Zeros(numWords - i - 1))[k]
        {
        }
      }
      i := i + 1;
    }
    assert image[..numWords] + Zeros(0) == image;
    r := Ok(Machine(st, ZeroRegisters, 0, input, []));
  }

  /** The instruction `segment_at(memory, 0, pc)` returns: it cannot fault while the
      loop guard holds. */
  function Fetch(m: Machine): (r: Result<Word>)
    ensures r.Ok? <==> Addressable(m.store, 0, m.pc)
    ensures NumInstructions(m.store).Ok? && m.pc < NumInstructions(m.store).value ==> r.Ok?
  {
    SegmentRead(m.store, 0, m.pc)
  }

  /** A HALT instruction sits just before the program counter. */
  predicate JustHalted(m: Machine)
  {
    && |m.store.slots| > 0
    && m.store.slots[0].Mapped?
    && 0 < m.pc <= |m.store.slots[0].words|
    && m.store.slots[0].words[m.pc - 1] / OpcodeUnit == Code(Halt)
  }

  /** One pass of `drive_program`'s loop: test the guard, fetch, advance the program
      counter, dispatch. Leaving the loop at the end of segment 0 with `drive` still
      true trips `assert(!drive)`. */
  function Step(m: Machine): (e: Effect)
    ensures NumInstructions(m.store).Ok? && m.pc >= NumInstructions(m.store).value ==> e.Faulted?
    ensures !e.Faulted? ==> Fetch(m).Ok?
    ensures e.Halted? ==> Fetch(m).value / OpcodeUnit == Code(Halt)
    ensures e.Running? && Fetch(m).value / OpcodeUnit != Code(Loadp) ==> e.machine.pc == m.pc + 1
    ensures e.Running? && Fetch(m).value / OpcodeUnit == Code(Loadp) ==> e.machine.pc == m.regs[Fetch(m).value % 8]
    ensures MachineValid(m) && e.Running? ==> MachineValid(e.machine)
  {
    // the guard `pc < num_instructions` holds exactly when the fetch succeeds
    match Fetch(m)
    case Fault => Faulted
    case Ok(word) =>
      var e := HandleInstruction(word, m.(pc := m.pc + 1));
      if MachineValid(m) then HandlePreservesValid(word, m.(pc := m.pc + 1)); e else e
  }

  /** How a run of at most `fuel` instructions ends. */
  datatype Outcome = Finished(machine: Machine) | Crashed(output: seq<Byte>) | OutOfFuel(machine: Machine)

  /** `drive_program` for at most `fuel` instructions. A run finishes only by executing
      HALT; output is only ever appended; the store invariant holds throughout. */
  function Run(m: Machine, fuel: nat): (r: Outcome)
    ensures r.Finished? ==> JustHalted(r.machine) && m.output <= r.machine.output
    ensures r.Crashed? ==> m.output <= r.output
    ensures r.OutOfFuel? ==> m.output <= r.machine.output
    ensures MachineValid(m) && !r.Crashed? ==> MachineValid(r.machine)
    decreases fuel
  {
    if fuel == 0 then OutOfFuel(m)
    else
      match Step(m)
      case Faulted => Crashed(m.output)
      case Halted => Finished(m.(pc := m.pc + 1))
      case Running(next) =>
        Run(next, fuel - 1)
  }

  /** One pass of the loop followed by the rest of the run. */
  lemma RunUnfolds(m: Machine, fuel: nat)
    requires fuel > 0
    ensures Step(m).Faulted? ==> Run(m, fuel) == Crashed(m.output)
    ensures Step(m).Halted? ==> Run(m, fuel) == Finished(m.(pc := m.pc + 1))
    ensures Step(m).Running? ==> Run(m, fuel) == Run(Step(m).machine, fuel - 1)
  {
  }

  /** A proof device for `RunAdds`: its value is always `Run(m, n)`, and its recursion is
      the induction on the first leg. It follows a run of `n = a + b` instructions leg by
      leg: a first leg of `a` instructions and, when that leg runs out of fuel, a second of
      `b` from where it stopped. A run that finished or crashed within the first leg ends
      the same way with any more fuel. It is a function rather than a lemma because its
      recursive call passes `a - 1` and `n - 1` as plain terms, which the solver matches
      against the unfolded `Run` directly. */
  function RunInLegs(m: Machine, a: nat, b: nat, n: nat): (r: Outcome)
    requires n == a + b
    ensures r == Run(m, n)
    ensures Run(m, a).OutOfFuel? ==> r == Run(Run(m, a).machine, b)
    ensures !Run(m, a).OutOfFuel? ==> r == Run(m, a)
    decreases a
  {
    if a == 0 then
      assert n == b;
      Run(m, n)
    else if !Step(m).Running? then
      RunAddsStopped(m, a, n);
      Run(m, n)
    else
      RunUnfolds(m, a);
      RunUnfolds(m, n);
      RunInLegs(Step(m).machine, a - 1, b, n - 1)
  }

  /** A run whose first step halts or faults ends the same way with any fuel. */
  lemma RunAddsStopped(m: Machine, a: nat, n: nat)
    requires 0 < a <= n && !Step(m).Running?
    ensures !Run(m, a).OutOfFuel? && Run(m, n) == Run(m, a)
  {
    RunUnfolds(m, a);
    RunUnfolds(m, n);
  }

  /** Fuel adds up: running `a + b` instructions is running `a` and then, if the machine
      is still going, `b` more from where it stopped. */
  lemma {:induction false} RunAdds(m: Machine, a: nat, b: nat)
    ensures Run(m, a).OutOfFuel? ==> Run(m, a + b) == Run(Run(m, a).machine, b)
    ensures !Run(m, a).OutOfFuel? ==> Run(m, a + b) == Run(m, a)
  {
    var legs := RunInLegs(m, a, b, a + b);
  }

  /** Running off the end of segment 0 is a fault, not a normal end. */
  lemma RunOffEndCrashes(m: Machine, fuel: nat)
    requires NumInstructions(m.store).Ok? && m.pc >= NumInstructions(m.store).value
    requires fuel > 0
    ensures Run(m, fuel) == Crashed(m.output)
  {
  }
}
