/** Concrete behaviours of the emulator: individual instructions on chosen operands,
    and whole programs from their file bytes to their output. */
module Scenarios {
  import opened Words
  import opened Outcomes
  import opened Memory
  import opened Decoding
  import opened Instructions
  import opened Driver

  /** Addition wraps: 4294967295 + 2 is 1. */
  lemma AdditionWraps(regs: Registers)
    requires regs[1] == MaxWord && regs[2] == 2
    ensures Addition(0, 1, 2, regs)[0] == 1
  {
  }

  /** Division truncates, and a zero divisor aborts. */
  lemma DivisionExamples(regs: Registers)
    requires regs[1] == 7 && regs[2] == 2 && regs[3] == 0
    ensures Division(0, 1, 2, regs).Ok? && Division(0, 1, 2, regs).value[0] == 3
    ensures Division(0, 1, 3, regs).Fault?
  {
  }

  /** Output accepts 65 and emits the byte 0x41; 256 aborts. */
  lemma OutputExamples(m: Machine)
    requires m.regs[1] == 65 && m.regs[2] == 256
    ensures Output(1, m) == Ok(m.(output := m.output + [0x41]))
    ensures Output(2, m).Fault?
  {
  }

  /** Input at the end of the stream yields the all-ones word. */
  lemma InputAtEnd(m: Machine, c: Reg)
    requires m.input == []
    ensures Input(c, m).regs[c] == 0xFFFF_FFFF
  {
  }

  /** A load-value whose immediate field is all ones loads 0x01FFFFFF: the opcode and
      register bits above the field are not part of the value. */
  lemma LoadValueAllOnes()
    ensures Decode(0xDFFF_FFFF) == LoadImmediate(7, 0x1FF_FFFF)
  {
    DecodeEncode(LoadImmediate(7, 0x1FF_FFFF));
  }

  /** The machine the loader builds for the file holding `program`. */
  lemma Loaded(program: seq<Word>, input: seq<Byte>)
    requires 0 < |program| <= MaxSegmentWords
    ensures InitialMachine(Serialize(program), input)
            == Ok(Machine(Store([Mapped(program)], []), ZeroRegisters, 0, input, []))
  {
    ImageOfSerialize(program);
  }

  /** A program consisting of a single HALT finishes with no output. */
  lemma HaltOnly()
    ensures InitialMachine(Serialize([0x7000_0000]), []).Ok?
    ensures Run(InitialMachine(Serialize([0x7000_0000]), []).value, 1).Finished?
    ensures Run(InitialMachine(Serialize([0x7000_0000]), []).value, 1).machine.output == []
  {
    var program := [0x7000_0000];
    Loaded(program, []);
    var m0 := Machine(Store([Mapped(program)], []), ZeroRegisters, 0, [], []);
    assert Fetch(m0) == Ok(Encode(Standard(Halt, 0, 0, 0)));
    DecodeEncode(Standard(Halt, 0, 0, 0));
    RunUnfolds(m0, 1);
  }

  /** Load 65 into r1, output r1, halt. */
  const EchoProgram: seq<Word> := [0xD200_0041, 0xA000_0001, 0x7000_0000]

  /** The echo program's load-value puts 65 in register 1. */
  lemma EchoLoadStep(program: seq<Word>)
    requires |program| >= 2 && program[0] == EchoProgram[0]
    ensures var st := Store([Mapped(program)], []);
            Step(Machine(st, ZeroRegisters, 0, [], [])) == Running(Machine(st, ZeroRegisters[1 := 65], 1, [], []))
  {
    var st := Store([Mapped(program)], []);
    assert Encode(LoadImmediate(1, 65)) == 0xD200_0041;
    DecodeEncode(LoadImmediate(1, 65));
  }

  /** The echo program's output instruction emits register 1. */
  lemma EchoOutputStep(program: seq<Word>)
    requires |program| >= 2 && program[1] == EchoProgram[1]
    ensures var st := Store([Mapped(program)], []);
            Step(Machine(st, ZeroRegisters[1 := 65], 1, [], [])) == Running(Machine(st, ZeroRegisters[1 := 65], 2, [], [65]))
  {
    var st := Store([Mapped(program)], []);
    assert Encode(Standard(Out, 0, 0, 1)) == 0xA000_0001;
    DecodeEncode(Standard(Out, 0, 0, 1));
  }

  /** The echo program's last instruction halts. */
  lemma EchoHaltStep()
    ensures Step(Machine(Store([Mapped(EchoProgram)], []), ZeroRegisters[1 := 65], 2, [], [65])) == Halted
  {
    assert Encode(Standard(Halt, 0, 0, 0)) == 0x7000_0000;
    DecodeEncode(Standard(Halt, 0, 0, 0));
  }

  /** The program above prints exactly the byte 65 and halts. */
  lemma EchoPrintsOneByte()
    ensures InitialMachine(Serialize(EchoProgram), []).Ok?
    ensures Run(InitialMachine(Serialize(EchoProgram), []).value, 3).Finished?
    ensures Run(InitialMachine(Serialize(EchoProgram), []).value, 3).machine.output == [65]
  {
    Loaded(EchoProgram, []);
    var st := Store([Mapped(EchoProgram)], []);
    var m0 := Machine(st, ZeroRegisters, 0, [], []);
    var m1 := Machine(st, ZeroRegisters[1 := 65], 1, [], []);
    var m2 := Machine(st, ZeroRegisters[1 := 65], 2, [], [65]);
    EchoLoadStep(EchoProgram);
    EchoOutputStep(EchoProgram);
    EchoHaltStep();
    RunUnfolds(m0, 3);
    RunUnfolds(m1, 2);
    RunUnfolds(m2, 1);
  }

  /** Without the final HALT the same program prints its byte and then faults when
      the program counter reaches the end of segment 0. */
  lemma EchoWithoutHaltFaults()
    ensures InitialMachine(Serialize(EchoProgram[..2]), []).Ok?
    ensures Run(InitialMachine(Serialize(EchoProgram[..2]), []).value, 3) == Crashed([65])
  {
    var program := EchoProgram[..2];
    Loaded(program, []);
    var st := Store([Mapped(program)], []);
    var m0 := Machine(st, ZeroRegisters, 0, [], []);
    var m1 := Machine(st, ZeroRegisters[1 := 65], 1, [], []);
    var m2 := Machine(st, ZeroRegisters[1 := 65], 2, [], [65]);
    EchoLoadStep(program);
    EchoOutputStep(program);
    RunUnfolds(m0, 3);
    RunUnfolds(m1, 2);
    RunOffEndCrashes(m2, 1);
  }
}
